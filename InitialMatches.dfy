/**
 * `removeInitialMatches` (src/utils/gameUtils.ts): passes over a freshly
 * dealt board, in place, rerolling the first cell of every window of three
 * equal non-null colours, until a pass changes nothing or 50 passes ran.
 */
module InitialMatches {
  import opened Types
  import opened Runs
  import opened Matches
  import opened MatchFacts

  /** The number of passes after which the source gives up. */
  const MaxIterations := 50

  /** The board held in the array, as a value. */
  function Snapshot(a: array2<Tile>): (g: Grid)
    reads a
    ensures |g| == a.Length0
    ensures forall r :: 0 <= r < a.Length0 ==> |g[r]| == a.Length1
    ensures forall r, c :: 0 <= r < a.Length0 && 0 <= c < a.Length1 ==> g[r][c] == a[r, c]
  {
    seq(a.Length0, r requires 0 <= r < a.Length0 reads a =>
      seq(a.Length1, c requires 0 <= c < a.Length1 reads a => a[r, c]))
  }

  /** Neither the horizontal nor the vertical window starting at `(r, c)` is a triple. */
  predicate Clear(g: Grid, n: int, r: int, c: int)
    requires IsSquare(g, n) && 0 <= r < n && 0 <= c < n
  {
    !Triple(g[r], c) && !Triple(Column(g, n, c), r)
  }

  lemma AllClear(g: Grid, n: int)
    requires IsSquare(g, n)
    requires forall r, c :: 0 <= r < n && 0 <= c < n ==> Clear(g, n, r, c)
    ensures NoTriple(g, n)
  {
    forall r, c | 0 <= r < n && 0 <= c < n
      ensures !Triple(g[r], c)
    {
      assert Clear(g, n, r, c);
    }
    forall r, c | 0 <= r < n && 0 <= c < n
      ensures !Triple(Column(g, n, c), r)
    {
      assert Clear(g, n, r, c);
    }
  }

  /** Exactly the same cells are null in both boards. */
  predicate SameHoles(before: Grid, after: Grid, n: int)
    requires IsSquare(before, n) && IsSquare(after, n)
  {
    forall r, c :: 0 <= r < n && 0 <= c < n ==> (after[r][c].None? <==> before[r][c].None?)
  }

  /** Every cell that differs between the boards holds a palette colour in `after`. */
  predicate InPalette(before: Grid, after: Grid, n: int, nColors: int)
    requires IsSquare(before, n) && IsSquare(after, n)
  {
    forall r, c :: 0 <= r < n && 0 <= c < n && after[r][c] != before[r][c] ==>
      after[r][c].Some? && 0 <= after[r][c].value < nColors
  }

  lemma SameHolesTrans(a: Grid, b: Grid, c: Grid, n: int)
    requires IsSquare(a, n) && IsSquare(b, n) && IsSquare(c, n)
    requires SameHoles(a, b, n) && SameHoles(b, c, n)
    ensures SameHoles(a, c, n)
  {
  }

  lemma InPaletteTrans(a: Grid, b: Grid, c: Grid, n: int, nColors: int)
    requires IsSquare(a, n) && IsSquare(b, n) && IsSquare(c, n)
    requires InPalette(a, b, n, nColors) && InPalette(b, c, n, nColors)
    ensures InPalette(a, c, n, nColors)
  {
  }

  lemma NoTripleClear(g: Grid, n: int, r: int, c: int)
    requires IsSquare(g, n) && NoTriple(g, n) && 0 <= r < n && 0 <= c < n
    ensures Clear(g, n, r, c)
  {
  }

  // ---------------------------------------------------------------------------
  // The passes as values: which board, which draw cursor, and whether any
  // window was found, after each test, cell, row, board and pass.
  // ---------------------------------------------------------------------------

  /** A board, the next draw, and whether a triple was found on the way. */
  datatype Sweep = Sweep(grid: Grid, next: nat, hit: bool)

  /**
   * One window test at `(row, col)`, along the row or down the column: a
   * triple rerolls the cell with draw `next`.
   */
  function Reroll(g: Grid, n: int, roll: nat -> int, next: nat, row: int, col: int, horizontal: bool): (s: Sweep)
    requires IsSquare(g, n) && 0 <= row < n && 0 <= col < n
    ensures IsSquare(s.grid, n)
  {
    var triple := if horizontal then Triple(g[row], col) else Triple(Column(g, n, col), row);
    if triple then Sweep(SetCell(g, n, row, col, Some(roll(next))), next + 1, true) else Sweep(g, next, false)
  }

  /** Both tests at one cell: the horizontal one, then the vertical one on the board it left. */
  function CellCheck(g: Grid, n: int, roll: nat -> int, next: nat, row: int, col: int): (s: Sweep)
    requires IsSquare(g, n) && 0 <= row < n && 0 <= col < n
    ensures IsSquare(s.grid, n)
  {
    var h := Reroll(g, n, roll, next, row, col, true);
    var v := Reroll(h.grid, n, roll, h.next, row, col, false);
    Sweep(v.grid, v.next, h.hit || v.hit)
  }

  /** The cells `0 .. col - 1` of one row, left to right. */
  function RowSweep(g: Grid, n: int, roll: nat -> int, next: nat, row: int, col: int): (s: Sweep)
    requires IsSquare(g, n) && 0 <= row < n && 0 <= col <= n
    ensures IsSquare(s.grid, n)
    decreases col
  {
    if col == 0 then Sweep(g, next, false)
    else
      var before := RowSweep(g, n, roll, next, row, col - 1);
      var cell := CellCheck(before.grid, n, roll, before.next, row, col - 1);
      Sweep(cell.grid, cell.next, before.hit || cell.hit)
  }

  /** The rows `0 .. row - 1`, top to bottom: one pass when `row == n`. */
  function BoardSweep(g: Grid, n: int, roll: nat -> int, next: nat, row: int): (s: Sweep)
    requires IsSquare(g, n) && 0 <= row <= n
    ensures IsSquare(s.grid, n)
    decreases row
  {
    if row == 0 then Sweep(g, next, false)
    else
      var before := BoardSweep(g, n, roll, next, row - 1);
      var line := RowSweep(before.grid, n, roll, before.next, row - 1, n);
      Sweep(line.grid, line.next, before.hit || line.hit)
  }

  /** `k` passes, each starting from the board and cursor the previous one left. */
  function Passes(g: Grid, n: int, roll: nat -> int, next: nat, k: nat): (s: Sweep)
    requires IsSquare(g, n)
    ensures IsSquare(s.grid, n)
  {
    if k == 0 then Sweep(g, next, true)
    else
      var before := Passes(g, n, roll, next, k - 1);
      BoardSweep(before.grid, n, roll, before.next, n)
  }

  /**
   * The two tests at one cell change at most that cell, which keeps its
   * value or takes the last of at most two draws; a draw is made exactly
   * when a window was a triple, that is, exactly when the cell is not clear.
   */
  lemma CellCheckFacts(g: Grid, n: int, roll: nat -> int, next: nat, row: int, col: int)
    requires IsSquare(g, n) && 0 <= row < n && 0 <= col < n
    ensures var s := CellCheck(g, n, roll, next, row, col);
      && next <= s.next <= next + 2
      && (s.hit <==> next < s.next)
      && (!s.hit <==> Clear(g, n, row, col))
      && (!s.hit ==> s.grid == g)
      && s.grid == SetCell(g, n, row, col, s.grid[row][col])
      && (s.grid[row][col] == g[row][col] || (next < s.next && s.grid[row][col] == Some(roll(s.next - 1))))
  {
    var h := Reroll(g, n, roll, next, row, col, true);
    var s := CellCheck(g, n, roll, next, row, col);
    if h.hit {
      assert h.grid == SetCell(g, n, row, col, Some(roll(next)));
    }
    GridEqual(s.grid, SetCell(g, n, row, col, s.grid[row][col]), n);
  }

  /** A rerolled cell was non-null and takes a draw: holes stay holes, and a valid oracle draws palette colours. */
  lemma CellCheckKeepsHoles(g: Grid, n: int, nColors: int, roll: nat -> int, next: nat, row: int, col: int)
    requires IsSquare(g, n) && 0 <= row < n && 0 <= col < n
    ensures SameHoles(g, CellCheck(g, n, roll, next, row, col).grid, n)
    ensures ValidDice(roll, nColors) ==> InPalette(g, CellCheck(g, n, roll, next, row, col).grid, n, nColors)
  {
    var h := Reroll(g, n, roll, next, row, col, true);
    SameHolesTrans(g, h.grid, CellCheck(g, n, roll, next, row, col).grid, n);
    if ValidDice(roll, nColors) {
      InPaletteTrans(g, h.grid, CellCheck(g, n, roll, next, row, col).grid, n, nColors);
    }
  }

  /** The cells `0 .. col - 1` of a row draw exactly when some window among them was a triple. */
  lemma {:induction false} RowSweepDraws(g: Grid, n: int, roll: nat -> int, next: nat, row: int, col: int)
    requires IsSquare(g, n) && 0 <= row < n && 0 <= col <= n
    ensures var s := RowSweep(g, n, roll, next, row, col);
      next <= s.next && (s.hit <==> next < s.next)
  {
    if col > 0 {
      var before := RowSweep(g, n, roll, next, row, col - 1);
      RowSweepDraws(g, n, roll, next, row, col - 1);
      CellCheckFacts(before.grid, n, roll, before.next, row, col - 1);
    }
  }

  /**
   * A row sweep that found nothing left the board as it was, and every cell
   * it checked was clear; on a board without a triple it finds nothing.
   */
  lemma {:induction false} RowSweepQuiet(g: Grid, n: int, roll: nat -> int, next: nat, row: int, col: int)
    requires IsSquare(g, n) && 0 <= row < n && 0 <= col <= n
    ensures var s := RowSweep(g, n, roll, next, row, col);
      !s.hit ==> s.grid == g && forall c :: 0 <= c < col ==> Clear(g, n, row, c)
    ensures NoTriple(g, n) ==> !RowSweep(g, n, roll, next, row, col).hit
  {
    if col > 0 {
      var before := RowSweep(g, n, roll, next, row, col - 1);
      RowSweepQuiet(g, n, roll, next, row, col - 1);
      CellCheckFacts(before.grid, n, roll, before.next, row, col - 1);
      if NoTriple(g, n) {
        NoTripleClear(g, n, row, col - 1);
      }
    }
  }

  /** A row sweep keeps the holes and, with a valid oracle, draws palette colours. */
  lemma {:induction false} RowSweepKeepsHoles(g: Grid, n: int, nColors: int, roll: nat -> int, next: nat, row: int, col: int)
    requires IsSquare(g, n) && 0 <= row < n && 0 <= col <= n
    ensures SameHoles(g, RowSweep(g, n, roll, next, row, col).grid, n)
    ensures ValidDice(roll, nColors) ==> InPalette(g, RowSweep(g, n, roll, next, row, col).grid, n, nColors)
  {
    if col > 0 {
      var before := RowSweep(g, n, roll, next, row, col - 1);
      RowSweepKeepsHoles(g, n, nColors, roll, next, row, col - 1);
      CellCheckKeepsHoles(before.grid, n, nColors, roll, before.next, row, col - 1);
      var s := RowSweep(g, n, roll, next, row, col);
      SameHolesTrans(g, before.grid, s.grid, n);
      if ValidDice(roll, nColors) {
        InPaletteTrans(g, before.grid, s.grid, n, nColors);
      }
    }
  }

  /** The rows `0 .. row - 1` draw exactly when some window in them was a triple. */
  lemma {:induction false} BoardSweepDraws(g: Grid, n: int, roll: nat -> int, next: nat, row: int)
    requires IsSquare(g, n) && 0 <= row <= n
    ensures var s := BoardSweep(g, n, roll, next, row);
      next <= s.next && (s.hit <==> next < s.next)
  {
    if row > 0 {
      var before := BoardSweep(g, n, roll, next, row - 1);
      BoardSweepDraws(g, n, roll, next, row - 1);
      RowSweepDraws(before.grid, n, roll, before.next, row - 1, n);
    }
  }

  /**
   * A board sweep that found nothing left the board as it was, and every
   * cell of the rows it checked was clear; on a board without a triple it
   * finds nothing.
   */
  lemma {:induction false} BoardSweepQuiet(g: Grid, n: int, roll: nat -> int, next: nat, row: int)
    requires IsSquare(g, n) && 0 <= row <= n
    ensures var s := BoardSweep(g, n, roll, next, row);
      !s.hit ==> s.grid == g && forall r, c :: 0 <= r < row && 0 <= c < n ==> Clear(g, n, r, c)
    ensures NoTriple(g, n) ==> !BoardSweep(g, n, roll, next, row).hit
  {
    if row > 0 {
      var before := BoardSweep(g, n, roll, next, row - 1);
      BoardSweepQuiet(g, n, roll, next, row - 1);
      RowSweepQuiet(before.grid, n, roll, before.next, row - 1, n);
    }
  }

  /** A board sweep keeps the holes and, with a valid oracle, draws palette colours. */
  lemma {:induction false} BoardSweepKeepsHoles(g: Grid, n: int, nColors: int, roll: nat -> int, next: nat, row: int)
    requires IsSquare(g, n) && 0 <= row <= n
    ensures SameHoles(g, BoardSweep(g, n, roll, next, row).grid, n)
    ensures ValidDice(roll, nColors) ==> InPalette(g, BoardSweep(g, n, roll, next, row).grid, n, nColors)
  {
    if row > 0 {
      var before := BoardSweep(g, n, roll, next, row - 1);
      BoardSweepKeepsHoles(g, n, nColors, roll, next, row - 1);
      RowSweepKeepsHoles(before.grid, n, nColors, roll, before.next, row - 1, n);
      var s := BoardSweep(g, n, roll, next, row);
      SameHolesTrans(g, before.grid, s.grid, n);
      if ValidDice(roll, nColors) {
        InPaletteTrans(g, before.grid, s.grid, n, nColors);
      }
    }
  }

  /** Passes only move the draw cursor forward, and a run of passes that drew nothing changed nothing. */
  lemma {:induction false} PassesDraws(g: Grid, n: int, roll: nat -> int, next: nat, k: nat)
    requires IsSquare(g, n)
    ensures var s := Passes(g, n, roll, next, k);
      next <= s.next && (s.next == next ==> s.grid == g)
  {
    if k > 0 {
      var before := Passes(g, n, roll, next, k - 1);
      PassesDraws(g, n, roll, next, k - 1);
      BoardSweepDraws(before.grid, n, roll, before.next, n);
      BoardSweepQuiet(before.grid, n, roll, before.next, n);
    }
  }

  /** Passes keep the holes and, with a valid oracle, draw palette colours. */
  lemma {:induction false} PassesKeepsHoles(g: Grid, n: int, nColors: int, roll: nat -> int, next: nat, k: nat)
    requires IsSquare(g, n)
    ensures SameHoles(g, Passes(g, n, roll, next, k).grid, n)
    ensures ValidDice(roll, nColors) ==> InPalette(g, Passes(g, n, roll, next, k).grid, n, nColors)
  {
    if k > 0 {
      var before := Passes(g, n, roll, next, k - 1);
      PassesKeepsHoles(g, n, nColors, roll, next, k - 1);
      BoardSweepKeepsHoles(before.grid, n, nColors, roll, before.next, n);
      var s := Passes(g, n, roll, next, k);
      SameHolesTrans(g, before.grid, s.grid, n);
      if ValidDice(roll, nColors) {
        InPaletteTrans(g, before.grid, s.grid, n, nColors);
      }
    }
  }

  /**
   * A pass that finds nothing leaves a board with no triple; and on a board
   * with no triple the first pass finds nothing and changes nothing.
   */
  lemma PassesSettle(g: Grid, n: int, roll: nat -> int, next: nat, k: nat)
    requires IsSquare(g, n)
    ensures k >= 1 && !Passes(g, n, roll, next, k).hit ==> NoTriple(Passes(g, n, roll, next, k).grid, n)
    ensures NoTriple(g, n) ==> Passes(g, n, roll, next, 1) == Sweep(g, next, false)
  {
    if k >= 1 {
      var before := Passes(g, n, roll, next, k - 1);
      BoardSweepQuiet(before.grid, n, roll, before.next, n);
      if !Passes(g, n, roll, next, k).hit {
        AllClear(before.grid, n);
      }
    }
    BoardSweepQuiet(g, n, roll, next, n);
    BoardSweepDraws(g, n, roll, next, n);
  }

  /**
   * Reroll draws come from `roll`, starting at draw number `next`; `next'`
   * is the first draw not used.  The method ends after `passes` passes, 1 to
   * 50.  When it stops before the cap, the last pass found nothing, so the
   * board has no window of three and `findSpecialMatches` finds no match on
   * it.  A board without such a window is left as it is, after one pass and
   * no draw.  Null cells stay null, non-null cells stay non-null, and with a
   * valid oracle a changed cell holds a palette colour.  The board left is
   * the one `passes` passes leave, where every pass but the last found a
   * triple, and the last found none unless it was the 50th.
   */
  method RemoveInitialMatches(grid: array2<Tile>, n: int, nColors: int, roll: nat -> int, next: nat)
    returns (next': nat, ghost passes: nat)
    requires grid.Length0 == n && grid.Length1 == n
    modifies grid
    ensures IsSquare(Snapshot(grid), n)
    ensures 1 <= passes <= MaxIterations
    ensures passes < MaxIterations ==> NoTriple(Snapshot(grid), n) && MatchList(Snapshot(grid), n) == []
    ensures NoTriple(old(Snapshot(grid)), n) ==> passes == 1 && next' == next && Snapshot(grid) == old(Snapshot(grid))
    ensures next <= next'
    ensures next' == next ==> Snapshot(grid) == old(Snapshot(grid))
    ensures SameHoles(old(Snapshot(grid)), Snapshot(grid), n)
    ensures ValidDice(roll, nColors) ==> InPalette(old(Snapshot(grid)), Snapshot(grid), n, nColors)
    ensures Snapshot(grid) == Passes(old(Snapshot(grid)), n, roll, next, passes).grid
    ensures next' == Passes(old(Snapshot(grid)), n, roll, next, passes).next
    ensures forall k :: 1 <= k < passes ==> Passes(old(Snapshot(grid)), n, roll, next, k).hit
    ensures passes < MaxIterations ==> !Passes(old(Snapshot(grid)), n, roll, next, passes).hit
  {
    ghost var initial := Snapshot(grid);
    var hasMatches := true;
    var iterations := 0;
    next' := next;
    while hasMatches && iterations < MaxIterations
      invariant 0 <= iterations <= MaxIterations
      invariant Snapshot(grid) == Passes(initial, n, roll, next, iterations).grid
      invariant next' == Passes(initial, n, roll, next, iterations).next
      invariant hasMatches == Passes(initial, n, roll, next, iterations).hit
      invariant forall k :: 1 <= k < iterations ==> Passes(initial, n, roll, next, k).hit
      decreases MaxIterations - iterations
    {
      hasMatches, next' := Pass(grid, n, nColors, roll, next');
      iterations := iterations + 1;
    }
    passes := iterations;
    PassesDraws(initial, n, roll, next, passes);
    PassesKeepsHoles(initial, n, nColors, roll, next, passes);
    if passes < MaxIterations {
      PassesSettle(initial, n, roll, next, passes);
      NoMatchesIffNoTriple(Snapshot(grid), n);
    }
    if NoTriple(initial, n) {
      PassesSettle(initial, n, roll, next, 0);
    }
  }

  /**
   * One pass over the board, leaving the board `BoardSweep` describes.  It
   * reports a match exactly when it drew a colour, that is, when some
   * window it checked was a triple; when it reports none, the board is
   * unchanged and has no triple.
   */
  method Pass(grid: array2<Tile>, n: int, nColors: int, roll: nat -> int, next: nat)
    returns (hasMatches: bool, next': nat)
    requires grid.Length0 == n && grid.Length1 == n
    modifies grid
    ensures !hasMatches ==> NoTriple(Snapshot(grid), n) && Snapshot(grid) == old(Snapshot(grid)) && next' == next
    ensures NoTriple(old(Snapshot(grid)), n) ==> !hasMatches
    ensures next <= next'
    ensures next' == next ==> Snapshot(grid) == old(Snapshot(grid))
    ensures SameHoles(old(Snapshot(grid)), Snapshot(grid), n)
    ensures ValidDice(roll, nColors) ==> InPalette(old(Snapshot(grid)), Snapshot(grid), n, nColors)
    ensures hasMatches <==> next < next'
    ensures Sweep(Snapshot(grid), next', hasMatches) == BoardSweep(old(Snapshot(grid)), n, roll, next, n)
  {
    ghost var start := Snapshot(grid);
    hasMatches := false;
    next' := next;
    for row := 0 to n
      invariant Sweep(Snapshot(grid), next', hasMatches) == BoardSweep(start, n, roll, next, row)
    {
      hasMatches, next' := PassRow(grid, n, row, roll, next', hasMatches);
    }
    BoardSweepDraws(start, n, roll, next, n);
    BoardSweepQuiet(start, n, roll, next, n);
    BoardSweepKeepsHoles(start, n, nColors, roll, next, n);
    if !hasMatches {
      AllClear(start, n);
    }
  }

  /**
   * The cell loop of one row, leaving the board `RowSweep` describes; it
   * reports a match exactly when one was already reported or it drew.
   */
  method PassRow(grid: array2<Tile>, n: int, row: int, roll: nat -> int, next: nat, hasMatches: bool)
    returns (hasMatches': bool, next': nat)
    requires grid.Length0 == n && grid.Length1 == n && 0 <= row < n
    modifies grid
    ensures var line := RowSweep(old(Snapshot(grid)), n, roll, next, row, n);
      Snapshot(grid) == line.grid && next' == line.next && hasMatches' == (hasMatches || line.hit)
    ensures next <= next' && (hasMatches' <==> hasMatches || next < next')
  {
    ghost var first := Snapshot(grid);
    hasMatches' := hasMatches;
    next' := next;
    for col := 0 to n
      invariant var line := RowSweep(first, n, roll, next, row, col);
        Snapshot(grid) == line.grid && next' == line.next && hasMatches' == (hasMatches || line.hit)
    {
      var hit;
      hit, next' := CheckCell(grid, n, row, col, roll, next');
      hasMatches' := hasMatches' || hit;
    }
    RowSweepDraws(first, n, roll, next, row, n);
  }

  /**
   * The body of the cell loop: the horizontal check at `(row, col)`, then the
   * vertical one, each rerolling `grid[row][col]` when its window is a triple;
   * `hit` tells whether either did.  Only that cell can change: it keeps its
   * value or holds the last of at most two draws.
   */
  method CheckCell(grid: array2<Tile>, n: int, row: int, col: int, roll: nat -> int, next: nat)
    returns (hit: bool, next': nat)
    requires grid.Length0 == n && grid.Length1 == n && 0 <= row < n && 0 <= col < n
    modifies grid
    ensures Sweep(Snapshot(grid), next', hit) == CellCheck(old(Snapshot(grid)), n, roll, next, row, col)
    ensures Snapshot(grid) == SetCell(old(Snapshot(grid)), n, row, col, Snapshot(grid)[row][col])
    ensures Snapshot(grid)[row][col] == old(Snapshot(grid))[row][col] ||
            (next < next' && Snapshot(grid)[row][col] == Some(roll(next' - 1)))
    ensures next <= next' <= next + 2
    ensures hit <==> next < next'
    ensures !hit <==> Clear(old(Snapshot(grid)), n, row, col)
  {
    ghost var before := Snapshot(grid);
    var hitRow, hitColumn;
    hitRow, next' := RerollIfTriple(grid, n, row, col, true, roll, next);
    hitColumn, next' := RerollIfTriple(grid, n, row, col, false, roll, next');
    hit := hitRow || hitColumn;
    CellCheckFacts(before, n, roll, next, row, col);
  }

  /**
   * One of the two tests at `(row, col)`: along the row (`horizontal`) or
   * down the column, a window of three equal non-null values starting at
   * the cell rerolls the cell with the next draw.
   */
  method RerollIfTriple(grid: array2<Tile>, n: int, row: int, col: int, horizontal: bool, roll: nat -> int, next: nat)
    returns (hit: bool, next': nat)
    requires grid.Length0 == n && grid.Length1 == n && 0 <= row < n && 0 <= col < n
    modifies grid
    ensures IsSquare(old(Snapshot(grid)), n)
    ensures hit <==> if horizontal then Triple(old(Snapshot(grid))[row], col) else Triple(Column(old(Snapshot(grid)), n, col), row)
    ensures hit ==> old(Snapshot(grid))[row][col].Some? && next' == next + 1
    ensures hit ==> Snapshot(grid) == SetCell(old(Snapshot(grid)), n, row, col, Some(roll(next)))
    ensures !hit ==> Snapshot(grid) == old(Snapshot(grid)) && next' == next
    ensures Sweep(Snapshot(grid), next', hit) == Reroll(old(Snapshot(grid)), n, roll, next, row, col, horizontal)
  {
    ghost var before := Snapshot(grid);
    next' := next;
    hit := false;
    if horizontal {
      if col <= n - 3 {
        if grid[row, col] == grid[row, col + 1] && grid[row, col] == grid[row, col + 2] && grid[row, col] != None {
          grid[row, col] := Some(roll(next'));
          next' := next' + 1;
          hit := true;
        }
      }
    } else {
      if row <= n - 3 {
        if grid[row, col] == grid[row + 1, col] && grid[row, col] == grid[row + 2, col] && grid[row, col] != None {
          grid[row, col] := Some(roll(next'));
          next' := next' + 1;
          hit := true;
        }
      }
    }
    if hit {
      GridEqual(Snapshot(grid), SetCell(before, n, row, col, Some(roll(next))), n);
    }
  }
}
