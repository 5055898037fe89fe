/**
 * `forceCompleteGrid` and `applyGravityAndFill` (src/hooks/useGame.ts): both
 * work on copies of the board and of the special-candy overlay (boards are
 * values here, so the caller's boards are never touched), and draw fresh
 * colours from the random-colour oracle.
 */
module Gravity {
  import opened Types

  // ---------------------------------------------------------------------------
  // forceCompleteGrid: every null cell gets a fresh colour, in row-major order.
  // ---------------------------------------------------------------------------

  /** Number of null cells among the first `c` entries of `line`. */
  function NullsIn(line: seq<Tile>, c: int): (k: nat)
    requires 0 <= c <= |line|
    ensures k <= c
  {
    if c == 0 then 0 else NullsIn(line, c - 1) + (if line[c - 1].None? then 1 else 0)
  }

  /** Number of null cells in the first `r` rows of the board. */
  function NullsAbove(g: Grid, n: int, r: int): nat
    requires IsSquare(g, n) && 0 <= r <= n
  {
    if r == 0 then 0 else NullsAbove(g, n, r - 1) + NullsIn(g[r - 1], n)
  }

  /** Number of null cells before `(r, c)` in row-major order: the draws spent before reaching it. */
  function NullsBefore(g: Grid, n: int, r: int, c: int): nat
    requires IsSquare(g, n) && 0 <= r < n && 0 <= c <= n
  {
    NullsAbove(g, n, r) + NullsIn(g[r], c)
  }

  /** A freshly drawn candy: its colour, and a normal special record carrying that colour. */
  function FreshSpecial(color: int): Special {
    Special(Normal, color)
  }

  /** The colour `forceCompleteGrid` leaves at `(r, c)`. */
  function CompletedTile(g: Grid, n: int, roll: nat -> int, next: nat, r: int, c: int): Tile
    requires IsSquare(g, n) && 0 <= r < n && 0 <= c < n
  {
    if g[r][c].None? then Some(roll(next + NullsBefore(g, n, r, c))) else g[r][c]
  }

  /** The special record `forceCompleteGrid` leaves at `(r, c)`. */
  function CompletedSpecial(g: Grid, sp: SpecialGrid, n: int, roll: nat -> int, next: nat, r: int, c: int): Special
    requires IsSquare(g, n) && IsSquare(sp, n) && 0 <= r < n && 0 <= c < n
  {
    if g[r][c].None? then FreshSpecial(roll(next + NullsBefore(g, n, r, c))) else sp[r][c]
  }

  /** The board `forceCompleteGrid` returns, as a value. */
  function CompletedGrid(g: Grid, n: int, roll: nat -> int, next: nat): (g': Grid)
    requires IsSquare(g, n)
    ensures IsSquare(g', n)
    ensures forall r, c :: 0 <= r < n && 0 <= c < n ==> g'[r][c] == CompletedTile(g, n, roll, next, r, c)
  {
    seq(n, r requires 0 <= r < n => seq(n, c requires 0 <= c < n => CompletedTile(g, n, roll, next, r, c)))
  }

  /** The special-candy overlay `forceCompleteGrid` returns, as a value. */
  function CompletedSpecials(g: Grid, sp: SpecialGrid, n: int, roll: nat -> int, next: nat): (sp': SpecialGrid)
    requires IsSquare(g, n) && IsSquare(sp, n)
    ensures IsSquare(sp', n)
    ensures forall r, c :: 0 <= r < n && 0 <= c < n ==> sp'[r][c] == CompletedSpecial(g, sp, n, roll, next, r, c)
  {
    seq(n, r requires 0 <= r < n => seq(n, c requires 0 <= c < n => CompletedSpecial(g, sp, n, roll, next, r, c)))
  }

  method ForceCompleteGrid(grid: Grid, specials: SpecialGrid, n: int, roll: nat -> int, next: nat)
    returns (newGrid: Grid, newSpecialGrid: SpecialGrid, next': nat)
    requires IsSquare(grid, n) && IsSquare(specials, n)
    ensures newGrid == CompletedGrid(grid, n, roll, next)
    ensures newSpecialGrid == CompletedSpecials(grid, specials, n, roll, next)
    ensures next' == next + NullsAbove(grid, n, n)
  {
    newGrid, newSpecialGrid := grid, specials;
    next' := next;
    for row := 0 to n
      invariant IsSquare(newGrid, n) && IsSquare(newSpecialGrid, n)
      invariant next' == next + NullsAbove(grid, n, row)
      invariant forall r, c :: 0 <= r < row && 0 <= c < n ==>
        newGrid[r][c] == CompletedTile(grid, n, roll, next, r, c) &&
        newSpecialGrid[r][c] == CompletedSpecial(grid, specials, n, roll, next, r, c)
      invariant forall r, c :: row <= r < n && 0 <= c < n ==>
        newGrid[r][c] == grid[r][c] && newSpecialGrid[r][c] == specials[r][c]
    {
      for col := 0 to n
        invariant IsSquare(newGrid, n) && IsSquare(newSpecialGrid, n)
        invariant next' == next + NullsBefore(grid, n, row, col)
        invariant forall r, c :: 0 <= r < n && 0 <= c < n && (r < row || (r == row && c < col)) ==>
          newGrid[r][c] == CompletedTile(grid, n, roll, next, r, c) &&
          newSpecialGrid[r][c] == CompletedSpecial(grid, specials, n, roll, next, r, c)
        invariant forall r, c :: 0 <= r < n && 0 <= c < n && (r > row || (r == row && c >= col)) ==>
          newGrid[r][c] == grid[r][c] && newSpecialGrid[r][c] == specials[r][c]
      {
        if newGrid[row][col] == None {
          var newColor := roll(next');
          next' := next' + 1;
          newGrid := SetCell(newGrid, n, row, col, Some(newColor));
          newSpecialGrid := SetCell(newSpecialGrid, n, row, col, FreshSpecial(newColor));
        }
      }
    }
    GridEqual(newGrid, CompletedGrid(grid, n, roll, next), n);
    GridEqual(newSpecialGrid, CompletedSpecials(grid, specials, n, roll, next), n);
  }

  lemma {:induction false} NullsInNone(line: seq<Tile>, c: int)
    requires 0 <= c <= |line|
    requires forall j :: 0 <= j < c ==> line[j].Some?
    ensures forall j :: 0 <= j <= c ==> NullsIn(line, j) == 0
  {
    if c > 0 {
      NullsInNone(line, c - 1);
    }
  }

  lemma {:induction false} NullsAboveNone(g: Grid, n: int, r: int)
    requires IsSquare(g, n) && NoNulls(g, n) && 0 <= r <= n
    ensures NullsAbove(g, n, r) == 0
    ensures forall i, c :: 0 <= i < r && 0 <= c <= n ==> NullsBefore(g, n, i, c) == 0
  {
    if r > 0 {
      NullsAboveNone(g, n, r - 1);
      NullsInNone(g[r - 1], n);
    }
  }

  /**
   * What `forceCompleteGrid` promises: the result has no null cell, every
   * non-null cell keeps its colour and its special record, every filled cell
   * holds a normal candy of its fresh colour (a palette colour when the
   * oracle is valid), and on a board without nulls nothing changes and no
   * colour is drawn.
   */
  lemma ForceCompleteFacts(g: Grid, sp: SpecialGrid, n: int, roll: nat -> int, next: nat, nColors: int)
    requires IsSquare(g, n) && IsSquare(sp, n)
    ensures forall r, c :: 0 <= r < n && 0 <= c < n ==> CompletedTile(g, n, roll, next, r, c).Some?
    ensures forall r, c :: 0 <= r < n && 0 <= c < n && g[r][c].Some? ==>
      CompletedTile(g, n, roll, next, r, c) == g[r][c] && CompletedSpecial(g, sp, n, roll, next, r, c) == sp[r][c]
    ensures forall r, c :: 0 <= r < n && 0 <= c < n && g[r][c].None? ==>
      CompletedSpecial(g, sp, n, roll, next, r, c) == Special(Normal, CompletedTile(g, n, roll, next, r, c).value)
    ensures ValidDice(roll, nColors) ==> forall r, c :: 0 <= r < n && 0 <= c < n && g[r][c].None? ==>
      0 <= CompletedTile(g, n, roll, next, r, c).value < nColors
    ensures NoNulls(g, n) ==> NullsAbove(g, n, n) == 0
    ensures NoNulls(g, n) ==> forall r, c :: 0 <= r < n && 0 <= c < n ==>
      CompletedTile(g, n, roll, next, r, c) == g[r][c] && CompletedSpecial(g, sp, n, roll, next, r, c) == sp[r][c]
  {
    if NoNulls(g, n) {
      NullsAboveNone(g, n, n);
    }
  }

  /**
   * Two different null cells draw different colours: `NullsBefore` is
   * strictly increasing along the row-major order of null cells.
   */
  lemma {:induction false} NullsInMonotone(line: seq<Tile>, a: int, b: int)
    requires 0 <= a <= b <= |line|
    ensures NullsIn(line, a) + (if a < b && line[a].None? then 1 else 0) <= NullsIn(line, b)
    decreases b - a
  {
    if a < b {
      NullsInMonotone(line, a, b - 1);
      if a < b - 1 {
        NullsInMonotone(line, a + 1, b);
      }
    }
  }

  lemma {:induction false} NullsAboveMonotone(g: Grid, n: int, a: int, b: int)
    requires IsSquare(g, n) && 0 <= a <= b <= n
    ensures NullsAbove(g, n, a) <= NullsAbove(g, n, b)
    decreases b - a
  {
    if a < b {
      NullsAboveMonotone(g, n, a, b - 1);
    }
  }

  lemma DistinctDraws(g: Grid, n: int, r1: int, c1: int, r2: int, c2: int)
    requires IsSquare(g, n)
    requires 0 <= r1 < n && 0 <= c1 < n && 0 <= r2 < n && 0 <= c2 < n
    requires g[r1][c1].None? && g[r2][c2].None?
    requires r1 < r2 || (r1 == r2 && c1 < c2)
    ensures NullsBefore(g, n, r1, c1) < NullsBefore(g, n, r2, c2)
    ensures NullsBefore(g, n, r2, c2) < NullsAbove(g, n, n)
  {
    if r1 < r2 {
      NullsInMonotone(g[r1], c1, n);
      NullsAboveMonotone(g, n, r1 + 1, r2);
    } else {
      NullsInMonotone(g[r1], c1, c2);
    }
    NullsInMonotone(g[r2], c2, n);
    NullsAboveMonotone(g, n, r2 + 1, n);
  }

  // ---------------------------------------------------------------------------
  // applyGravityAndFill: per column, the non-null candies drop to the bottom in
  // their order, and the cells left at the top get fresh colours, top-down.
  // ---------------------------------------------------------------------------

  /** A candy on the move: its colour and its special record (an entry of `existing`). */
  datatype Piece = Piece(candy: int, special: Special)

  /** The non-null candies of column `c` in rows `row..n-1`, read bottom-up, with their special records. */
  function Existing(g: Grid, sp: SpecialGrid, n: int, c: int, row: int): (e: seq<Piece>)
    requires IsSquare(g, n) && IsSquare(sp, n) && 0 <= c < n && 0 <= row <= n
    ensures |e| <= n - row
    decreases n - row
  {
    if row == n then []
    else Existing(g, sp, n, c, row + 1) + (if g[row][c].Some? then [Piece(g[row][c].value, sp[row][c])] else [])
  }

  /** The number of null cells of column `c` in rows `row..n-1`: the holes at or below `row`. */
  function ColumnNulls(g: Grid, n: int, c: int, row: int): (k: nat)
    requires IsSquare(g, n) && 0 <= c < n && 0 <= row <= n
    ensures k <= n - row
    decreases n - row
  {
    if row == n then 0 else ColumnNulls(g, n, c, row + 1) + (if g[row][c].None? then 1 else 0)
  }

  /** Draws spent on columns `0..c-1`: one per null cell. */
  function HolesBefore(g: Grid, n: int, c: int): nat
    requires IsSquare(g, n) && 0 <= c <= n
  {
    if c == 0 then 0 else HolesBefore(g, n, c - 1) + ColumnNulls(g, n, c - 1, 0)
  }

  /**
   * The piece at row `r` of column `c` once the column is settled: the
   * pieces of `Existing` fill the column from the bottom, and the rows left
   * above them get fresh normal candies drawn top-down from draw `base`.
   */
  function SettledAt(g: Grid, sp: SpecialGrid, n: int, c: int, roll: nat -> int, base: nat, r: int): Piece
    requires IsSquare(g, n) && IsSquare(sp, n) && 0 <= c < n && 0 <= r < n
  {
    var e := Existing(g, sp, n, c, 0);
    if n - 1 - r < |e| then e[n - 1 - r] else Piece(roll(base + r), FreshSpecial(roll(base + r)))
  }

  /** The piece at `(r, c)` after `applyGravityAndFill`, columns being settled left to right. */
  function Settled(g: Grid, sp: SpecialGrid, n: int, roll: nat -> int, next: nat, r: int, c: int): Piece
    requires IsSquare(g, n) && IsSquare(sp, n) && 0 <= r < n && 0 <= c < n
  {
    SettledAt(g, sp, n, c, roll, next + HolesBefore(g, n, c), r)
  }

  /** The board `applyGravityAndFill` returns, as a value. */
  function SettledGrid(g: Grid, sp: SpecialGrid, n: int, roll: nat -> int, next: nat): (g': Grid)
    requires IsSquare(g, n) && IsSquare(sp, n)
    ensures IsSquare(g', n) && NoNulls(g', n)
    ensures forall r, c :: 0 <= r < n && 0 <= c < n ==> g'[r][c] == Some(Settled(g, sp, n, roll, next, r, c).candy)
  {
    seq(n, r requires 0 <= r < n => seq(n, c requires 0 <= c < n => Some(Settled(g, sp, n, roll, next, r, c).candy)))
  }

  /** The special-candy overlay `applyGravityAndFill` returns, as a value. */
  function SettledSpecials(g: Grid, sp: SpecialGrid, n: int, roll: nat -> int, next: nat): (sp': SpecialGrid)
    requires IsSquare(g, n) && IsSquare(sp, n)
    ensures IsSquare(sp', n)
    ensures forall r, c :: 0 <= r < n && 0 <= c < n ==> sp'[r][c] == Settled(g, sp, n, roll, next, r, c).special
  {
    seq(n, r requires 0 <= r < n => seq(n, c requires 0 <= c < n => Settled(g, sp, n, roll, next, r, c).special))
  }

  lemma {:induction false} ExistingCount(g: Grid, sp: SpecialGrid, n: int, c: int, row: int)
    requires IsSquare(g, n) && IsSquare(sp, n) && 0 <= c < n && 0 <= row <= n
    ensures |Existing(g, sp, n, c, row)| + ColumnNulls(g, n, c, row) == n - row
    decreases n - row
  {
    if row < n {
      ExistingCount(g, sp, n, c, row + 1);
    }
  }

  /**
   * `Existing` reads only the colours of column `c` and the special records
   * of its non-null cells.
   */
  lemma {:induction false} ExistingSameColumn(g1: Grid, sp1: SpecialGrid, g2: Grid, sp2: SpecialGrid,
                                              n: int, c: int, row: int)
    requires IsSquare(g1, n) && IsSquare(sp1, n) && IsSquare(g2, n) && IsSquare(sp2, n)
    requires 0 <= c < n && 0 <= row <= n
    requires forall r :: row <= r < n ==> g1[r][c] == g2[r][c]
    requires forall r :: row <= r < n && g1[r][c].Some? ==> sp1[r][c] == sp2[r][c]
    ensures Existing(g1, sp1, n, c, row) == Existing(g2, sp2, n, c, row)
    ensures ColumnNulls(g1, n, c, row) == ColumnNulls(g2, n, c, row)
    decreases n - row
  {
    if row < n {
      ExistingSameColumn(g1, sp1, g2, sp2, n, c, row + 1);
    }
  }

  /**
   * The input's non-null candy at row `r` is the piece number
   * `(n - 1 - r) - ColumnNulls(g, n, c, r + 1)` of `Existing`: the candies
   * below it come first.
   */
  lemma {:induction false} ExistingAt(g: Grid, sp: SpecialGrid, n: int, c: int, row: int, r: int)
    requires IsSquare(g, n) && IsSquare(sp, n) && 0 <= c < n && 0 <= row <= r < n
    requires g[r][c].Some?
    ensures 0 <= (n - 1 - r) - ColumnNulls(g, n, c, r + 1) < |Existing(g, sp, n, c, row)|
    ensures Existing(g, sp, n, c, row)[(n - 1 - r) - ColumnNulls(g, n, c, r + 1)] == Piece(g[r][c].value, sp[r][c])
    decreases r - row
  {
    if row == r {
      ExistingCount(g, sp, n, c, r + 1);
    } else {
      ExistingAt(g, sp, n, c, row + 1, r);
    }
  }

  /** Every piece of `Existing` is the non-null candy of some row, numbered as in `ExistingAt`. */
  lemma {:induction false} ExistingOrigin(g: Grid, sp: SpecialGrid, n: int, c: int, row: int, i: int)
    requires IsSquare(g, n) && IsSquare(sp, n) && 0 <= c < n && 0 <= row <= n
    requires 0 <= i < |Existing(g, sp, n, c, row)|
    ensures exists src :: (row <= src < n && g[src][c].Some? && i == (n - 1 - src) - ColumnNulls(g, n, c, src + 1) &&
      Existing(g, sp, n, c, row)[i] == Piece(g[src][c].value, sp[src][c]))
    decreases n - row
  {
    var rest := Existing(g, sp, n, c, row + 1);
    if i < |rest| {
      ExistingOrigin(g, sp, n, c, row + 1, i);
    } else {
      ExistingCount(g, sp, n, c, row + 1);
      assert i == (n - 1 - row) - ColumnNulls(g, n, c, row + 1);
    }
  }

  lemma {:induction false} ColumnNullsBound(g: Grid, n: int, c: int, a: int, b: int)
    requires IsSquare(g, n) && 0 <= c < n && 0 <= a <= b <= n
    ensures ColumnNulls(g, n, c, b) <= ColumnNulls(g, n, c, a) <= ColumnNulls(g, n, c, b) + (b - a)
    decreases b - a
  {
    if a < b {
      ColumnNullsBound(g, n, c, a + 1, b);
    }
  }

  /**
   * Gravity: a non-null candy at row `r` lands `ColumnNulls(g, n, c, r + 1)`
   * rows lower (one per hole below it), with its own special record.
   */
  lemma CandyFalls(g: Grid, sp: SpecialGrid, n: int, roll: nat -> int, next: nat, r: int, c: int)
    requires IsSquare(g, n) && IsSquare(sp, n) && 0 <= r < n && 0 <= c < n
    requires g[r][c].Some?
    ensures r + ColumnNulls(g, n, c, r + 1) < n
    ensures Settled(g, sp, n, roll, next, r + ColumnNulls(g, n, c, r + 1), c) == Piece(g[r][c].value, sp[r][c])
  {
    ExistingAt(g, sp, n, c, 0, r);
  }

  /** Falling keeps the order of the candies of a column: the higher one lands higher. */
  lemma FallKeepsOrder(g: Grid, n: int, c: int, r1: int, r2: int)
    requires IsSquare(g, n) && 0 <= c < n && 0 <= r1 < r2 < n
    requires g[r1][c].Some? && g[r2][c].Some?
    ensures r1 + ColumnNulls(g, n, c, r1 + 1) < r2 + ColumnNulls(g, n, c, r2 + 1)
  {
    ColumnNullsBound(g, n, c, r1 + 1, r2);
  }

  /**
   * The shape of a settled column with `k` holes: rows `k..n-1` hold the
   * input's candies, each one with its own special record and landed as in
   * `CandyFalls`; rows `0..k-1` hold fresh normal candies, drawn top-down,
   * of a palette colour when the oracle is valid.
   */
  lemma SettledColumnShape(g: Grid, sp: SpecialGrid, n: int, roll: nat -> int, next: nat, nColors: int, r: int, c: int)
    requires IsSquare(g, n) && IsSquare(sp, n) && 0 <= r < n && 0 <= c < n
    ensures r < ColumnNulls(g, n, c, 0) ==>
      var color := roll(next + HolesBefore(g, n, c) + r);
      Settled(g, sp, n, roll, next, r, c) == Piece(color, Special(Normal, color)) &&
      (ValidDice(roll, nColors) ==> 0 <= color < nColors)
    ensures r >= ColumnNulls(g, n, c, 0) ==>
      exists src :: (0 <= src < n && g[src][c].Some? && src + ColumnNulls(g, n, c, src + 1) == r &&
        Settled(g, sp, n, roll, next, r, c) == Piece(g[src][c].value, sp[src][c]))
  {
    ExistingCount(g, sp, n, c, 0);
    if r >= ColumnNulls(g, n, c, 0) {
      ExistingOrigin(g, sp, n, c, 0, n - 1 - r);
    }
  }

  /** A column without holes is left exactly as it is, and draws nothing. */
  lemma {:induction false} FullColumnStays(g: Grid, sp: SpecialGrid, n: int, roll: nat -> int, next: nat, c: int)
    requires IsSquare(g, n) && IsSquare(sp, n) && 0 <= c < n
    requires forall r :: 0 <= r < n ==> g[r][c].Some?
    ensures ColumnNulls(g, n, c, 0) == 0
    ensures forall r :: 0 <= r < n ==> Settled(g, sp, n, roll, next, r, c) == Piece(g[r][c].value, sp[r][c])
  {
    forall r | 0 <= r < n
      ensures ColumnNulls(g, n, c, r) == 0
    {
      ColumnNullsBound(g, n, c, r, n);
      FullColumnNone(g, n, c, r);
    }
    forall r | 0 <= r < n
      ensures Settled(g, sp, n, roll, next, r, c) == Piece(g[r][c].value, sp[r][c])
    {
      CandyFalls(g, sp, n, roll, next, r, c);
      FullColumnNone(g, n, c, r + 1);
    }
  }

  lemma {:induction false} FullColumnNone(g: Grid, n: int, c: int, row: int)
    requires IsSquare(g, n) && 0 <= c < n && 0 <= row <= n
    requires forall r :: row <= r < n ==> g[r][c].Some?
    ensures ColumnNulls(g, n, c, row) == 0
    decreases n - row
  {
    if row < n {
      FullColumnNone(g, n, c, row + 1);
    }
  }

  /**
   * The settled board does not depend on the special records of null
   * cells: whatever was written there is dropped.
   */
  lemma SettledIgnoresHoles(g: Grid, sp1: SpecialGrid, sp2: SpecialGrid, n: int, roll: nat -> int, next: nat, r: int, c: int)
    requires IsSquare(g, n) && IsSquare(sp1, n) && IsSquare(sp2, n) && 0 <= r < n && 0 <= c < n
    requires forall i, j :: 0 <= i < n && 0 <= j < n && g[i][j].Some? ==> sp1[i][j] == sp2[i][j]
    ensures Settled(g, sp1, n, roll, next, r, c) == Settled(g, sp2, n, roll, next, r, c)
  {
    ExistingSameColumn(g, sp1, g, sp2, n, c, 0);
  }

  /** The per-column body of `applyGravityAndFill`: collect, drop, refill. */
  method SettleColumn(grid: Grid, specials: SpecialGrid, n: int, col: int, roll: nat -> int, next: nat)
    returns (newGrid: Grid, newSpecialGrid: SpecialGrid, next': nat)
    requires IsSquare(grid, n) && IsSquare(specials, n) && 0 <= col < n
    ensures IsSquare(newGrid, n) && IsSquare(newSpecialGrid, n)
    ensures forall r, c :: 0 <= r < n && 0 <= c < n && c != col ==>
      newGrid[r][c] == grid[r][c] && newSpecialGrid[r][c] == specials[r][c]
    ensures forall r :: 0 <= r < n ==>
      newGrid[r][col] == Some(SettledAt(grid, specials, n, col, roll, next, r).candy) &&
      newSpecialGrid[r][col] == SettledAt(grid, specials, n, col, roll, next, r).special
    ensures next' == next + ColumnNulls(grid, n, col, 0)
  {
    newGrid, newSpecialGrid := grid, specials;
    var existing: seq<Piece> := [];
    for row := n downto 0
      invariant existing == Existing(grid, specials, n, col, row)
    {
      if newGrid[row][col] != None {
        existing := existing + [Piece(newGrid[row][col].value, newSpecialGrid[row][col])];
      }
    }
    // the existing candies go to the bottom, the rest of the column is emptied
    var idx := 0;
    for row := n downto 0
      invariant idx == n - row
      invariant IsSquare(newGrid, n) && IsSquare(newSpecialGrid, n)
      invariant forall r, c :: 0 <= r < n && 0 <= c < n && c != col ==>
        newGrid[r][c] == grid[r][c] && newSpecialGrid[r][c] == specials[r][c]
      invariant forall r :: row <= r < n ==>
        newGrid[r][col] == (if n - 1 - r < |existing| then Some(existing[n - 1 - r].candy) else None) &&
        newSpecialGrid[r][col] == (if n - 1 - r < |existing| then existing[n - 1 - r].special else Special(Normal, 0))
    {
      if idx < |existing| {
        newGrid := SetCell(newGrid, n, row, col, Some(existing[idx].candy));
        newSpecialGrid := SetCell(newSpecialGrid, n, row, col, existing[idx].special);
      } else {
        newGrid := SetCell(newGrid, n, row, col, None);
        newSpecialGrid := SetCell(newSpecialGrid, n, row, col, Special(Normal, 0));
      }
      idx := idx + 1;
    }
    // the emptied top gets fresh candies
    next' := next;
    for row := 0 to n
      invariant IsSquare(newGrid, n) && IsSquare(newSpecialGrid, n)
      invariant next' == next + (if row < n - |existing| then row else n - |existing|)
      invariant forall r, c :: 0 <= r < n && 0 <= c < n && c != col ==>
        newGrid[r][c] == grid[r][c] && newSpecialGrid[r][c] == specials[r][c]
      invariant forall r :: 0 <= r < row ==>
        newGrid[r][col] == Some(SettledAt(grid, specials, n, col, roll, next, r).candy) &&
        newSpecialGrid[r][col] == SettledAt(grid, specials, n, col, roll, next, r).special
      invariant forall r :: row <= r < n ==>
        newGrid[r][col] == (if n - 1 - r < |existing| then Some(existing[n - 1 - r].candy) else None) &&
        newSpecialGrid[r][col] == (if n - 1 - r < |existing| then existing[n - 1 - r].special else Special(Normal, 0))
    {
      if newGrid[row][col] == None {
        var newColor := roll(next');
        next' := next' + 1;
        newGrid := SetCell(newGrid, n, row, col, Some(newColor));
        newSpecialGrid := SetCell(newSpecialGrid, n, row, col, FreshSpecial(newColor));
      }
    }
    ExistingCount(grid, specials, n, col, 0);
  }

  /**
   * `applyGravityAndFill`: every column settled, then `forceCompleteGrid`,
   * which finds no null cell left and changes nothing.  One colour is drawn
   * per null cell of the input.
   */
  method ApplyGravityAndFill(grid: Grid, specials: SpecialGrid, n: int, roll: nat -> int, next: nat)
    returns (newGrid: Grid, newSpecialGrid: SpecialGrid, next': nat)
    requires IsSquare(grid, n) && IsSquare(specials, n)
    ensures newGrid == SettledGrid(grid, specials, n, roll, next)
    ensures newSpecialGrid == SettledSpecials(grid, specials, n, roll, next)
    ensures next' == next + HolesBefore(grid, n, n)
  {
    var settledGrid, settledSpecials := grid, specials;
    next' := next;
    for col := 0 to n
      invariant IsSquare(settledGrid, n) && IsSquare(settledSpecials, n)
      invariant next' == next + HolesBefore(grid, n, col)
      invariant forall r, c :: 0 <= r < n && 0 <= c < col ==>
        settledGrid[r][c] == Some(Settled(grid, specials, n, roll, next, r, c).candy) &&
        settledSpecials[r][c] == Settled(grid, specials, n, roll, next, r, c).special
      invariant forall r, c :: 0 <= r < n && col <= c < n ==>
        settledGrid[r][c] == grid[r][c] && settledSpecials[r][c] == specials[r][c]
    {
      ExistingSameColumn(settledGrid, settledSpecials, grid, specials, n, col, 0);
      settledGrid, settledSpecials, next' := SettleColumn(settledGrid, settledSpecials, n, col, roll, next');
    }
    GridEqual(settledGrid, SettledGrid(grid, specials, n, roll, next), n);
    GridEqual(settledSpecials, SettledSpecials(grid, specials, n, roll, next), n);
    ForceCompleteFacts(settledGrid, settledSpecials, n, roll, next', 0);
    var finalNext;
    newGrid, newSpecialGrid, finalNext := ForceCompleteGrid(settledGrid, settledSpecials, n, roll, next');
    GridEqual(newGrid, settledGrid, n);
    GridEqual(newSpecialGrid, settledSpecials, n);
  }
}
