/**
 * `findSpecialMatches` (src/utils/gameUtils.ts): the matched cells of a board
 * and the special-candy candidates its runs produce.
 *
 * The specification functions list both in the order the source produces
 * them: row by row, left to right (the source's `matchSet` is filled in that
 * order, and a JavaScript `Set` iterates in insertion order).
 */
module Matches {
  import opened Types
  import opened Runs

  /** A special-candy candidate: where, and which kind. */
  datatype Candidate = Candidate(cell: Cell, kind: CandyType)

  /** `horRun[r][c]` of the source: the horizontal run mark of a cell. */
  function HRun(g: Grid, n: int, r: int, c: int): nat
    requires IsSquare(g, n) && 0 <= r < n && 0 <= c < n
  {
    RunMark(g[r], c)
  }

  /** `verRun[r][c]` of the source: the vertical run mark of a cell. */
  function VRun(g: Grid, n: int, r: int, c: int): nat
    requires IsSquare(g, n) && 0 <= r < n && 0 <= c < n
  {
    RunMark(Column(g, n, c), r)
  }

  /** The source's `horRun` table of a board. */
  function HorTable(g: Grid, n: int): (t: seq<seq<nat>>)
    requires IsSquare(g, n)
    ensures IsSquare(t, n)
  {
    seq(n, r requires 0 <= r < n => seq(n, c requires 0 <= c < n => HRun(g, n, r, c)))
  }

  /** The source's `verRun` table of a board, stored column by column: `VerTable(g, n)[c][r]`. */
  function VerTable(g: Grid, n: int): (t: seq<seq<nat>>)
    requires IsSquare(g, n)
    ensures IsSquare(t, n)
  {
    seq(n, c requires 0 <= c < n => seq(n, r requires 0 <= r < n => VRun(g, n, r, c)))
  }

  /** The cell lies in a horizontal or a vertical run of 3 or more. */
  predicate IsMatched(g: Grid, n: int, r: int, c: int)
    requires IsSquare(g, n) && 0 <= r < n && 0 <= c < n
  {
    HRun(g, n, r, c) >= 3 || VRun(g, n, r, c) >= 3
  }

  /** The cell `(r, c)` if its run mark, horizontal or vertical, is 3 or more. */
  function CellMatch(hor: seq<seq<nat>>, ver: seq<seq<nat>>, n: int, r: int, c: int): seq<Cell>
    requires IsSquare(hor, n) && IsSquare(ver, n) && 0 <= r < n && 0 <= c < n
  {
    if hor[r][c] >= 3 || ver[c][r] >= 3 then [Cell(r, c)] else []
  }

  /** The matches of row `r`, one list per column. */
  function RowMatches(hor: seq<seq<nat>>, ver: seq<seq<nat>>, n: int, r: int): (ls: seq<seq<Cell>>)
    requires IsSquare(hor, n) && IsSquare(ver, n) && 0 <= r < n
    ensures |ls| == n && forall c :: 0 <= c < n ==> ls[c] == CellMatch(hor, ver, n, r, c)
  {
    seq(n, c requires 0 <= c < n => CellMatch(hor, ver, n, r, c))
  }

  /** The matches of the board, one list per row. */
  function BoardMatches(hor: seq<seq<nat>>, ver: seq<seq<nat>>, n: int): (ls: seq<seq<Cell>>)
    requires IsSquare(hor, n) && IsSquare(ver, n)
    ensures |ls| == n && forall r :: 0 <= r < n ==> ls[r] == Flatten(RowMatches(hor, ver, n, r))
  {
    seq(n, r requires 0 <= r < n => Flatten(RowMatches(hor, ver, n, r)))
  }

  /** The `matches` list returned by `findSpecialMatches`, row by row, left to right. */
  function MatchList(g: Grid, n: int): seq<Cell>
    requires IsSquare(g, n)
  {
    Flatten(BoardMatches(HorTable(g, n), VerTable(g, n), n))
  }

  /**
   * The candidates emitted for one cell, given its run marks `h` and `v`: a
   * color-bomb alone for a run of 5 or more (the source's `continue`);
   * otherwise striped-h for a horizontal 4, striped-v for a vertical 4 and
   * wrapped where two runs of 3 or more cross, in that order.
   */
  function CellCandidates(cell: Cell, h: nat, v: nat): seq<Candidate>
  {
    if h >= 5 || v >= 5 then [Candidate(cell, ColorBomb)]
    else
      (if h == 4 then [Candidate(cell, StripedH)] else [])
      + (if v == 4 then [Candidate(cell, StripedV)] else [])
      + (if h >= 3 && v >= 3 then [Candidate(cell, Wrapped)] else [])
  }

  /**
   * The candidate rules stated kind by kind, for a cell with run marks `h`
   * and `v`.
   */
  predicate Earns(k: CandyType, h: nat, v: nat) {
    match k
    case ColorBomb => h >= 5 || v >= 5
    case StripedH => h == 4 && v < 5
    case StripedV => v == 4 && h < 5
    case Wrapped => 3 <= h < 5 && 3 <= v < 5
    case _ => false
  }

  /**
   * The candidates pushed for one cell are exactly the kinds the cell earns,
   * each once; a color-bomb comes alone.
   */
  lemma CellCandidateRules(cell: Cell, h: nat, v: nat)
    ensures forall x :: x in CellCandidates(cell, h, v) <==> x.cell == cell && Earns(x.kind, h, v)
    ensures (h >= 5 || v >= 5) ==> CellCandidates(cell, h, v) == [Candidate(cell, ColorBomb)]
    ensures NoDup(CellCandidates(cell, h, v))
  {
  }

  /** The candidates of row `r`, one list per column. */
  function RowCandidates(hor: seq<seq<nat>>, ver: seq<seq<nat>>, n: int, r: int): (ls: seq<seq<Candidate>>)
    requires IsSquare(hor, n) && IsSquare(ver, n) && 0 <= r < n
    ensures |ls| == n && forall c :: 0 <= c < n ==> ls[c] == CellCandidates(Cell(r, c), hor[r][c], ver[c][r])
  {
    seq(n, c requires 0 <= c < n => CellCandidates(Cell(r, c), hor[r][c], ver[c][r]))
  }

  /** The candidates of the board, one list per row. */
  function BoardCandidates(hor: seq<seq<nat>>, ver: seq<seq<nat>>, n: int): (ls: seq<seq<Candidate>>)
    requires IsSquare(hor, n) && IsSquare(ver, n)
    ensures |ls| == n && forall r :: 0 <= r < n ==> ls[r] == Flatten(RowCandidates(hor, ver, n, r))
  {
    seq(n, r requires 0 <= r < n => Flatten(RowCandidates(hor, ver, n, r)))
  }

  /** The `specialCandies` list returned by `findSpecialMatches`, row by row, left to right. */
  function CandidateList(g: Grid, n: int): seq<Candidate>
    requires IsSquare(g, n)
  {
    Flatten(BoardCandidates(HorTable(g, n), VerTable(g, n), n))
  }

  // ---------------------------------------------------------------------------
  // The detector as the source runs it.
  // ---------------------------------------------------------------------------

  method FindSpecialMatches(grid: Grid, n: int) returns (matches: seq<Cell>, specials: seq<Candidate>)
    requires n >= 1 && IsSquare(grid, n)
    ensures matches == MatchList(grid, n)
    ensures specials == CandidateList(grid, n)
  {
    // Horizontal pass: one run table per row.
    var horRun: seq<seq<nat>> := [];
    for row := 0 to n
      invariant |horRun| == row
      invariant forall r :: 0 <= r < row ==> horRun[r] == HorTable(grid, n)[r]
    {
      var runs := LineRuns(grid[row]);
      assert runs == HorTable(grid, n)[row];
      horRun := horRun + [runs];
    }
    assert horRun == HorTable(grid, n);
    // Vertical pass: one run table per column, so `verRun[c][r]` is the source's `verRun[r][c]`.
    var verRun: seq<seq<nat>> := [];
    for col := 0 to n
      invariant |verRun| == col
      invariant forall c :: 0 <= c < col ==> verRun[c] == VerTable(grid, n)[c]
    {
      var runs := LineRuns(Column(grid, n, col));
      assert runs == VerTable(grid, n)[col];
      verRun := verRun + [runs];
    }
    assert verRun == VerTable(grid, n);
    matches := CollectMatches(horRun, verRun, n);
    specials := CollectCandidates(horRun, verRun, n);
  }

  /** Every cell whose run mark is 3 or more is matched. */
  method CollectMatches(horRun: seq<seq<nat>>, verRun: seq<seq<nat>>, n: int) returns (matches: seq<Cell>)
    requires IsSquare(horRun, n) && IsSquare(verRun, n)
    ensures matches == Flatten(BoardMatches(horRun, verRun, n))
  {
    var board := BoardMatches(horRun, verRun, n);
    matches := [];
    for row := 0 to n
      invariant matches == Flatten(board[..row])
    {
      var cells := RowMatches(horRun, verRun, n, row);
      for col := 0 to n
        invariant matches == Flatten(board[..row]) + Flatten(cells[..col])
      {
        FlattenPrefix(cells, col);
        AppendAssoc(Flatten(board[..row]), Flatten(cells[..col]), cells[col]);
        if horRun[row][col] >= 3 || verRun[col][row] >= 3 {
          matches := matches + [Cell(row, col)];
        }
      }
      assert cells[..n] == cells;
      FlattenPrefix(board, row);
    }
    assert board[..n] == board;
  }

  /** Special-candy candidates, cell by cell. */
  method CollectCandidates(horRun: seq<seq<nat>>, verRun: seq<seq<nat>>, n: int) returns (specials: seq<Candidate>)
    requires IsSquare(horRun, n) && IsSquare(verRun, n)
    ensures specials == Flatten(BoardCandidates(horRun, verRun, n))
  {
    var board := BoardCandidates(horRun, verRun, n);
    specials := [];
    for row := 0 to n
      invariant specials == Flatten(board[..row])
    {
      var cells := RowCandidates(horRun, verRun, n, row);
      for col := 0 to n
        invariant specials == Flatten(board[..row]) + Flatten(cells[..col])
      {
        FlattenPrefix(cells, col);
        AppendAssoc(Flatten(board[..row]), Flatten(cells[..col]), cells[col]);
        specials := PushCandidates(specials, Cell(row, col), horRun[row][col], verRun[col][row]);
      }
      assert cells[..n] == cells;
      FlattenPrefix(board, row);
    }
    assert board[..n] == board;
  }

  /**
   * The body of the candidate loop for one cell with run marks `h` and `v`:
   * appends that cell's candidates to `specials`.
   */
  method PushCandidates(specials: seq<Candidate>, cell: Cell, h: nat, v: nat) returns (out: seq<Candidate>)
    ensures out == specials + CellCandidates(cell, h, v)
  {
    out := specials;
    if h >= 5 || v >= 5 {
      out := out + [Candidate(cell, ColorBomb)];
      return;
    }
    if h == 4 {
      out := out + [Candidate(cell, StripedH)];
    }
    if v == 4 {
      out := out + [Candidate(cell, StripedV)];
    }
    if h >= 3 && v >= 3 {
      out := out + [Candidate(cell, Wrapped)];
    }
  }
}
