/**
 * The `step` loop of `processCascade` (src/hooks/useGame.ts): find the
 * matches, write the special records of the candidates, null the matched
 * cells and score them, let the candies fall and refill, and repeat until a
 * step finds no match; that step fills any null cell left and stops.
 */
module Cascade {
  import opened Types
  import opened Matches
  import opened MatchFacts
  import opened Gravity

  // ---------------------------------------------------------------------------
  // Writing the special records of the candidates
  // ---------------------------------------------------------------------------

  /** Every candidate sits on a non-null cell of the board. */
  predicate OnCandies(g: Grid, n: int, cands: seq<Candidate>)
    requires IsSquare(g, n)
  {
    forall i :: 0 <= i < |cands| ==> InBounds(cands[i].cell, n) && g[cands[i].cell.row][cands[i].cell.col].Some?
  }

  lemma CandidatesOnCandies(g: Grid, n: int)
    requires IsSquare(g, n)
    ensures OnCandies(g, n, CandidateList(g, n))
  {
    CandidateListFacts(g, n);
    var cands := CandidateList(g, n);
    forall i | 0 <= i < |cands|
      ensures InBounds(cands[i].cell, n) && g[cands[i].cell.row][cands[i].cell.col].Some?
    {
      var x := cands[i];
      assert x in cands;
      CandidateRules(g, n, x.cell.row, x.cell.col);
      assert Candidate(Cell(x.cell.row, x.cell.col), x.kind) == x;
      MatchedMeansTriple(g, n, x.cell.row, x.cell.col);
    }
  }

  /**
   * The special record at `(r, c)` after the writes of `cands[..k]`: the
   * last candidate on that cell wins, with the cell's colour; a cell without
   * a candidate keeps its record.
   */
  function PromotedAt(g: Grid, sp: SpecialGrid, n: int, cands: seq<Candidate>, k: int, r: int, c: int): Special
    requires IsSquare(g, n) && IsSquare(sp, n) && 0 <= r < n && 0 <= c < n && 0 <= k <= |cands|
    requires OnCandies(g, n, cands)
  {
    if k == 0 then sp[r][c]
    else if cands[k - 1].cell == Cell(r, c) then Special(cands[k - 1].kind, g[r][c].value)
    else PromotedAt(g, sp, n, cands, k - 1, r, c)
  }

  /** The overlay after all candidate writes. */
  function PromotedGrid(g: Grid, sp: SpecialGrid, n: int, cands: seq<Candidate>): (sp': SpecialGrid)
    requires IsSquare(g, n) && IsSquare(sp, n) && OnCandies(g, n, cands)
    ensures IsSquare(sp', n)
    ensures forall r, c :: 0 <= r < n && 0 <= c < n ==> sp'[r][c] == PromotedAt(g, sp, n, cands, |cands|, r, c)
  {
    seq(n, r requires 0 <= r < n => seq(n, c requires 0 <= c < n => PromotedAt(g, sp, n, cands, |cands|, r, c)))
  }

  /**
   * A cell's record changes only when a candidate names it, and then it
   * becomes a special of a candidate's kind with the cell's colour.
   */
  lemma {:induction false} PromotedAtFacts(g: Grid, sp: SpecialGrid, n: int, cands: seq<Candidate>, k: int, r: int, c: int)
    requires IsSquare(g, n) && IsSquare(sp, n) && 0 <= r < n && 0 <= c < n && 0 <= k <= |cands|
    requires OnCandies(g, n, cands)
    ensures (forall i :: 0 <= i < k ==> cands[i].cell != Cell(r, c)) ==> PromotedAt(g, sp, n, cands, k, r, c) == sp[r][c]
    ensures (exists i :: 0 <= i < k && cands[i].cell == Cell(r, c)) ==>
      exists i :: 0 <= i < k && PromotedAt(g, sp, n, cands, k, r, c) == Special(cands[i].kind, g[r][c].value)
  {
    if k > 0 {
      PromotedAtFacts(g, sp, n, cands, k - 1, r, c);
      if cands[k - 1].cell != Cell(r, c) && exists i :: 0 <= i < k && cands[i].cell == Cell(r, c) {
        var i :| 0 <= i < k && cands[i].cell == Cell(r, c);
        assert i < k - 1;
      }
    }
  }

  /** `newSpecials.forEach(...)`: the candidate writes, in list order. */
  method PromoteCandidates(grid: Grid, specials: SpecialGrid, n: int, cands: seq<Candidate>)
    returns (newSpecials: SpecialGrid)
    requires IsSquare(grid, n) && IsSquare(specials, n) && OnCandies(grid, n, cands)
    ensures newSpecials == PromotedGrid(grid, specials, n, cands)
  {
    newSpecials := specials;
    for i := 0 to |cands|
      invariant IsSquare(newSpecials, n)
      invariant forall r, c :: 0 <= r < n && 0 <= c < n ==> newSpecials[r][c] == PromotedAt(grid, specials, n, cands, i, r, c)
    {
      var cell := cands[i].cell;
      newSpecials := SetCell(newSpecials, n, cell.row, cell.col, Special(cands[i].kind, grid[cell.row][cell.col].value));
    }
    GridEqual(newSpecials, PromotedGrid(grid, specials, n, cands), n);
  }

  // ---------------------------------------------------------------------------
  // Clearing the matched cells
  // ---------------------------------------------------------------------------

  /** The board with every listed cell nulled. */
  function ClearedGrid(g: Grid, n: int, cells: seq<Cell>): (g': Grid)
    requires IsSquare(g, n)
    ensures IsSquare(g', n)
    ensures forall r, c :: 0 <= r < n && 0 <= c < n ==> g'[r][c] == if Cell(r, c) in cells then None else g[r][c]
  {
    seq(n, r requires 0 <= r < n => seq(n, c requires 0 <= c < n => if Cell(r, c) in cells then None else g[r][c]))
  }

  /** `matches.forEach(...)`: null each matched cell and score it. */
  method ClearMatches(grid: Grid, n: int, matches: seq<Cell>, points: int, score: int)
    returns (newGrid: Grid, newScore: int)
    requires IsSquare(grid, n) && forall i :: 0 <= i < |matches| ==> InBounds(matches[i], n)
    ensures newGrid == ClearedGrid(grid, n, matches)
    ensures newScore == score + points * |matches|
  {
    newGrid, newScore := grid, score;
    for i := 0 to |matches|
      invariant IsSquare(newGrid, n)
      invariant forall r, c :: 0 <= r < n && 0 <= c < n ==>
        newGrid[r][c] == if Cell(r, c) in matches[..i] then None else grid[r][c]
      invariant newScore == score + points * i
    {
      newGrid := SetCell(newGrid, n, matches[i].row, matches[i].col, None);
      newScore := newScore + points;
      assert matches[..i + 1] == matches[..i] + [matches[i]];
    }
    assert matches[..|matches|] == matches;
    GridEqual(newGrid, ClearedGrid(grid, n, matches), n);
  }

  // ---------------------------------------------------------------------------
  // The cascade
  // ---------------------------------------------------------------------------

  /** How a cascade ends: settled with its final boards, score and draw cursor, or still running when the fuel ran out. */
  datatype Outcome = Done(grid: Grid, specials: SpecialGrid, score: int, next: nat) | OutOfFuel

  /** The boards and the draw cursor between two steps. */
  datatype Boards = Boards(grid: Grid, specials: SpecialGrid, next: nat)

  /**
   * The boards after a step that found matches: the candidates' records
   * written, the matched cells nulled, then `applyGravityAndFill`.
   */
  function StepBoards(g: Grid, sp: SpecialGrid, n: int, roll: nat -> int, next: nat): (b: Boards)
    requires IsSquare(g, n) && IsSquare(sp, n)
    ensures IsSquare(b.grid, n) && IsSquare(b.specials, n) && NoNulls(b.grid, n)
    ensures next <= b.next
  {
    CandidatesOnCandies(g, n);
    var sp1 := PromotedGrid(g, sp, n, CandidateList(g, n));
    var g1 := ClearedGrid(g, n, MatchList(g, n));
    Boards(SettledGrid(g1, sp1, n, roll, next), SettledSpecials(g1, sp1, n, roll, next), next + HolesBefore(g1, n, n))
  }

  /** One call of `step` that found matches: promote, clear and score, settle. */
  method CascadeStep(grid: Grid, specials: SpecialGrid, n: int, matches: seq<Cell>, newSpecials: seq<Candidate>,
                     points: int, score: int, roll: nat -> int, next: nat)
    returns (newGrid: Grid, newSpecialGrid: SpecialGrid, newScore: int, next': nat)
    requires IsSquare(grid, n) && IsSquare(specials, n)
    requires matches == MatchList(grid, n) && newSpecials == CandidateList(grid, n)
    ensures Boards(newGrid, newSpecialGrid, next') == StepBoards(grid, specials, n, roll, next)
    ensures newScore == score + points * |matches|
  {
    CandidatesOnCandies(grid, n);
    MatchListFacts(grid, n);
    assert forall i :: 0 <= i < |matches| ==> matches[i] in MatchList(grid, n);
    var promoted := PromoteCandidates(grid, specials, n, newSpecials);
    var cleared;
    cleared, newScore := ClearMatches(grid, n, matches, points, score);
    newGrid, newSpecialGrid, next' := ApplyGravityAndFill(cleared, promoted, n, roll, next);
  }

  // ---------------------------------------------------------------------------
  // What the cascade guarantees
  // ---------------------------------------------------------------------------

  /** Every candy of the overlay is a normal one. */
  predicate AllNormal(sp: SpecialGrid, n: int)
    requires IsSquare(sp, n)
  {
    forall r, c :: 0 <= r < n && 0 <= c < n ==> sp[r][c].kind == Normal
  }

  /**
   * The special records written on the candidates do not survive the step:
   * every candidate cell is matched, hence nulled, and gravity drops the
   * records of null cells.  The step's boards are those of a step that
   * writes nothing.
   */
  lemma PromotionsDiscarded(g: Grid, sp: SpecialGrid, n: int, roll: nat -> int, next: nat)
    requires IsSquare(g, n) && IsSquare(sp, n)
    ensures var g1 := ClearedGrid(g, n, MatchList(g, n));
      StepBoards(g, sp, n, roll, next) ==
      Boards(SettledGrid(g1, sp, n, roll, next), SettledSpecials(g1, sp, n, roll, next), next + HolesBefore(g1, n, n))
  {
    CandidatesOnCandies(g, n);
    var cands := CandidateList(g, n);
    var g1: Grid := ClearedGrid(g, n, MatchList(g, n));
    var sp1 := PromotedGrid(g, sp, n, cands);
    forall i: int, j: int | 0 <= i < n && 0 <= j < n && g1[i][j].Some?
      ensures sp1[i][j] == sp[i][j]
    {
      PromotedAtFacts(g, sp, n, cands, |cands|, i, j);
      if exists k :: 0 <= k < |cands| && cands[k].cell == Cell(i, j) {
        var k :| 0 <= k < |cands| && cands[k].cell == Cell(i, j);
        assert cands[k] in cands;
        CandidateRules(g, n, i, j);
        assert false;
      }
    }
    forall r, c | 0 <= r < n && 0 <= c < n
      ensures Settled(g1, sp1, n, roll, next, r, c) == Settled(g1, sp, n, roll, next, r, c)
    {
      SettledIgnoresHoles(g1, sp1, sp, n, roll, next, r, c);
    }
    GridEqual(SettledSpecials(g1, sp1, n, roll, next), SettledSpecials(g1, sp, n, roll, next), n);
    GridEqual(SettledGrid(g1, sp1, n, roll, next), SettledGrid(g1, sp, n, roll, next), n);
  }

  /** Gravity and refill bring no special candy of their own: a settled record is carried or fresh and normal. */
  lemma SettledKeepsNormal(g: Grid, sp: SpecialGrid, n: int, roll: nat -> int, next: nat)
    requires IsSquare(g, n) && IsSquare(sp, n) && AllNormal(sp, n)
    ensures AllNormal(SettledSpecials(g, sp, n, roll, next), n)
  {
    forall r, c | 0 <= r < n && 0 <= c < n
      ensures Settled(g, sp, n, roll, next, r, c).special.kind == Normal
    {
      SettledColumnShape(g, sp, n, roll, next, 0, r, c);
    }
  }

  /** A step never turns a normal overlay into one with a special candy. */
  lemma StepKeepsNormal(g: Grid, sp: SpecialGrid, n: int, roll: nat -> int, next: nat)
    requires IsSquare(g, n) && IsSquare(sp, n) && AllNormal(sp, n)
    ensures AllNormal(StepBoards(g, sp, n, roll, next).specials, n)
  {
    PromotionsDiscarded(g, sp, n, roll, next);
    SettledKeepsNormal(ClearedGrid(g, n, MatchList(g, n)), sp, n, roll, next);
  }

  /**
   * What `forceCompleteGrid` leaves when the cascade stops: a full board,
   * no new special candy, and on a board that was already full, the boards
   * as they were with no draw.
   */
  lemma CompletionFacts(g: Grid, sp: SpecialGrid, n: int, roll: nat -> int, next: nat)
    requires IsSquare(g, n) && IsSquare(sp, n)
    ensures NoNulls(CompletedGrid(g, n, roll, next), n)
    ensures AllNormal(sp, n) ==> AllNormal(CompletedSpecials(g, sp, n, roll, next), n)
    ensures NoNulls(g, n) ==>
      CompletedGrid(g, n, roll, next) == g && CompletedSpecials(g, sp, n, roll, next) == sp && NullsAbove(g, n, n) == 0
  {
    ForceCompleteFacts(g, sp, n, roll, next, 0);
    if NoNulls(g, n) {
      GridEqual(CompletedGrid(g, n, roll, next), g, n);
      GridEqual(CompletedSpecials(g, sp, n, roll, next), sp, n);
    }
  }

  /** Proof step for the score bound of `Step`: at least one match earns at least `points`. */
  lemma GainAtLeastPoints(points: int, k: int)
    requires points >= 0 && k >= 1
    ensures points * k >= points
  {
    assert points * k == points + points * (k - 1);
  }

  /**
   * One call of `step`: find the matches; without any, complete the board
   * and finish; otherwise promote, clear, score and settle, and go on.
   */
  method Step(grid: Grid, specials: SpecialGrid, n: int, points: int, score: int, roll: nat -> int, next: nat)
    returns (finished: bool, newGrid: Grid, newSpecialGrid: SpecialGrid, newScore: int, next': nat)
    requires n >= 1 && IsSquare(grid, n) && IsSquare(specials, n)
    ensures finished <==> MatchList(grid, n) == []
    ensures finished ==>
      newGrid == CompletedGrid(grid, n, roll, next) && newSpecialGrid == CompletedSpecials(grid, specials, n, roll, next) &&
      newScore == score && next' == next + NullsAbove(grid, n, n)
    ensures !finished ==>
      Boards(newGrid, newSpecialGrid, next') == StepBoards(grid, specials, n, roll, next) &&
      newScore == score + points * |MatchList(grid, n)|
    ensures IsSquare(newGrid, n) && IsSquare(newSpecialGrid, n) && NoNulls(newGrid, n)
    ensures finished && NoNulls(grid, n) ==>
      newGrid == grid && newSpecialGrid == specials && next' == next && NoTriple(grid, n)
    ensures next <= next'
    ensures AllNormal(specials, n) ==> AllNormal(newSpecialGrid, n)
    ensures points >= 0 ==> newScore >= score
    ensures !finished && points > 0 ==> newScore > score
  {
    var matches, newSpecials := FindSpecialMatches(grid, n);
    finished := |matches| == 0;
    if finished {
      newGrid, newSpecialGrid, next' := ForceCompleteGrid(grid, specials, n, roll, next);
      newScore := score;
      CompletionFacts(grid, specials, n, roll, next);
      if NoNulls(grid, n) {
        NoMatchesIffNoTriple(grid, n);
      }
    } else {
      newGrid, newSpecialGrid, newScore, next' := CascadeStep(grid, specials, n, matches, newSpecials, points, score, roll, next);
      if AllNormal(specials, n) {
        StepKeepsNormal(grid, specials, n, roll, next);
      }
      if points >= 0 {
        GainAtLeastPoints(points, |matches|);
      }
    }
  }

  /**
   * The `step` loop, run for at most `fuel` steps (each iteration is one
   * call of `step`).  A finished cascade leaves a full board; unless it
   * stopped at once on a board with holes, that board has no window of three
   * left.  The score never
   * goes down (for non-negative `points`) and, for positive `points`, grows
   * exactly when the first step finds matches.  A first step without
   * matches finishes at once with the boards `forceCompleteGrid` returns,
   * which on a full board are the boards given.  The cascade never creates
   * a special candy: an all-normal overlay stays all normal.
   */
  method RunCascade(grid: Grid, specials: SpecialGrid, n: int, points: int, score: int, roll: nat -> int, next: nat, fuel: nat)
    returns (outcome: Outcome)
    requires n >= 1 && IsSquare(grid, n) && IsSquare(specials, n)
    ensures outcome.Done? ==> IsSquare(outcome.grid, n) && IsSquare(outcome.specials, n) && NoNulls(outcome.grid, n)
    ensures outcome.Done? && (NoNulls(grid, n) || MatchList(grid, n) != []) ==> NoTriple(outcome.grid, n)
    ensures outcome.Done? && points >= 0 ==> outcome.score >= score
    ensures outcome.Done? && points > 0 ==> (outcome.score == score <==> MatchList(grid, n) == [])
    ensures outcome.Done? ==> next <= outcome.next
    ensures outcome.Done? && AllNormal(specials, n) ==> AllNormal(outcome.specials, n)
    ensures fuel > 0 && MatchList(grid, n) == [] ==>
      outcome == Done(CompletedGrid(grid, n, roll, next), CompletedSpecials(grid, specials, n, roll, next), score,
                      next + NullsAbove(grid, n, n))
    ensures fuel > 0 && MatchList(grid, n) == [] && NoNulls(grid, n) ==> outcome == Done(grid, specials, score, next)
  {
    var g, sp, sc, nx, f := grid, specials, score, next, fuel;
    while f > 0
      invariant IsSquare(g, n) && IsSquare(sp, n)
      invariant f == fuel ==> g == grid && sp == specials && sc == score && nx == next
      invariant f < fuel ==> NoNulls(g, n) && MatchList(grid, n) != []
      invariant NoNulls(grid, n) ==> NoNulls(g, n)
      invariant next <= nx
      invariant points >= 0 ==> sc >= score
      invariant f < fuel && points > 0 ==> sc > score
      invariant AllNormal(specials, n) ==> AllNormal(sp, n)
      decreases f
    {
      var finished;
      finished, g, sp, sc, nx := Step(g, sp, n, points, sc, roll, nx);
      if finished {
        return Done(g, sp, sc, nx);
      }
      f := f - 1;
    }
    outcome := OutOfFuel;
  }
}
