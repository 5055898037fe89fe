/**
 * What the lists returned by `findSpecialMatches` mean: which cells are
 * matched, which candidates each cell receives, and how that relates to runs
 * of equal colours on the board.
 */
module MatchFacts {
  import opened Types
  import opened Runs
  import opened Matches

  /** Length of the horizontal run through a cell. */
  function HLen(g: Grid, n: int, r: int, c: int): nat
    requires IsSquare(g, n) && 0 <= r < n && 0 <= c < n
  {
    RunLength(g[r], c)
  }

  /** Length of the vertical run through a cell. */
  function VLen(g: Grid, n: int, r: int, c: int): nat
    requires IsSquare(g, n) && 0 <= r < n && 0 <= c < n
  {
    RunLength(Column(g, n, c), r)
  }

  /** No horizontal and no vertical window of three equal non-null cells anywhere. */
  predicate NoTriple(g: Grid, n: int)
    requires IsSquare(g, n)
  {
    (forall r, c :: 0 <= r < n && 0 <= c < n ==> !Triple(g[r], c)) &&
    (forall r, c :: 0 <= r < n && 0 <= c < n ==> !Triple(Column(g, n, c), r))
  }

  // ---------------------------------------------------------------------------
  // Matches
  // ---------------------------------------------------------------------------

  lemma RowMatchMember(hor: seq<seq<nat>>, ver: seq<seq<nat>>, n: int, r: int, x: Cell)
    requires IsSquare(hor, n) && IsSquare(ver, n) && 0 <= r < n
    ensures x in Flatten(RowMatches(hor, ver, n, r)) <==>
      x.row == r && 0 <= x.col < n && (hor[r][x.col] >= 3 || ver[x.col][r] >= 3)
  {
    var ls := RowMatches(hor, ver, n, r);
    if x in Flatten(ls) {
      FlattenOrigin(ls, x);
    }
    if x.row == r && 0 <= x.col < n && (hor[r][x.col] >= 3 || ver[x.col][r] >= 3) {
      FlattenContains(ls, x.col, x);
    }
  }

  lemma MatchTableMember(hor: seq<seq<nat>>, ver: seq<seq<nat>>, n: int, x: Cell)
    requires IsSquare(hor, n) && IsSquare(ver, n)
    ensures x in Flatten(BoardMatches(hor, ver, n)) <==>
      InBounds(x, n) && (hor[x.row][x.col] >= 3 || ver[x.col][x.row] >= 3)
  {
    var ls := BoardMatches(hor, ver, n);
    if x in Flatten(ls) {
      FlattenOrigin(ls, x);
      var r :| 0 <= r < |ls| && x in ls[r];
      RowMatchMember(hor, ver, n, r, x);
    }
    if InBounds(x, n) && (hor[x.row][x.col] >= 3 || ver[x.col][x.row] >= 3) {
      RowMatchMember(hor, ver, n, x.row, x);
      FlattenContains(ls, x.row, x);
    }
  }

  lemma RowMatchNoDup(hor: seq<seq<nat>>, ver: seq<seq<nat>>, n: int, r: int)
    requires IsSquare(hor, n) && IsSquare(ver, n) && 0 <= r < n
    ensures NoDup(Flatten(RowMatches(hor, ver, n, r)))
  {
    var ls := RowMatches(hor, ver, n, r);
    forall i, j, x | 0 <= i < j < |ls| && x in ls[i]
      ensures x !in ls[j]
    {
    }
    FlattenNoDup(ls);
  }

  lemma MatchTableNoDup(hor: seq<seq<nat>>, ver: seq<seq<nat>>, n: int)
    requires IsSquare(hor, n) && IsSquare(ver, n)
    ensures NoDup(Flatten(BoardMatches(hor, ver, n)))
  {
    var ls := BoardMatches(hor, ver, n);
    forall i | 0 <= i < |ls|
      ensures NoDup(ls[i])
    {
      RowMatchNoDup(hor, ver, n, i);
    }
    forall i, j, x | 0 <= i < j < |ls| && x in ls[i]
      ensures x !in ls[j]
    {
      RowMatchMember(hor, ver, n, i, x);
      RowMatchMember(hor, ver, n, j, x);
    }
    FlattenNoDup(ls);
  }

  /**
   * `matches` lists every cell at most once, and lists a cell exactly when it
   * lies in a horizontal or vertical run of 3 or more.
   */
  lemma MatchListFacts(g: Grid, n: int)
    requires IsSquare(g, n)
    ensures NoDup(MatchList(g, n))
    ensures forall x :: x in MatchList(g, n) <==>
      InBounds(x, n) && (HLen(g, n, x.row, x.col) >= 3 || VLen(g, n, x.row, x.col) >= 3)
  {
    var hor, ver := HorTable(g, n), VerTable(g, n);
    MatchTableNoDup(hor, ver, n);
    forall x
      ensures x in MatchList(g, n) <==> InBounds(x, n) && (HLen(g, n, x.row, x.col) >= 3 || VLen(g, n, x.row, x.col) >= 3)
    {
      MatchTableMember(hor, ver, n, x);
    }
  }

  /**
   * A run of 3 or more, in the sense of the detector, is a stretch of equal
   * non-null colours: a cell's run is 3 or longer exactly when a window of
   * three equal non-null cells covers it, so a null cell is never matched.
   */
  lemma MatchedMeansTriple(g: Grid, n: int, r: int, c: int)
    requires IsSquare(g, n) && 0 <= r < n && 0 <= c < n
    ensures Cell(r, c) in MatchList(g, n) <==>
      (exists j :: c - 2 <= j <= c && Triple(g[r], j)) || (exists j :: r - 2 <= j <= r && Triple(Column(g, n, c), j))
    ensures Cell(r, c) in MatchList(g, n) ==> g[r][c].Some?
  {
    MatchListFacts(g, n);
    RunLengthIffTriple(g[r], c);
    RunLengthIffTriple(Column(g, n, c), r);
    if HLen(g, n, r, c) >= 3 {
      RunUniform(g[r], c, c);
    } else if VLen(g, n, r, c) >= 3 {
      RunUniform(Column(g, n, c), r, r);
    }
  }

  /** A cell where a window of three starts is matched. */
  lemma TripleMatched(g: Grid, n: int, r: int, c: int)
    requires IsSquare(g, n) && 0 <= r < n && 0 <= c < n
    ensures Triple(g[r], c) || Triple(Column(g, n, c), r) ==> Cell(r, c) in MatchList(g, n)
  {
    MatchedMeansTriple(g, n, r, c);
    if Triple(g[r], c) {
      assert c - 2 <= c <= c;
    } else if Triple(Column(g, n, c), r) {
      assert r - 2 <= r <= r;
    }
  }

  /** A matched cell is covered by a window of three, so the board has one. */
  lemma MatchedHasTriple(g: Grid, n: int, r: int, c: int)
    requires IsSquare(g, n) && 0 <= r < n && 0 <= c < n
    requires Cell(r, c) in MatchList(g, n)
    ensures !NoTriple(g, n)
  {
    MatchedMeansTriple(g, n, r, c);
    if j :| c - 2 <= j <= c && Triple(g[r], j) {
      assert 0 <= j < n && Triple(g[r], j);
    } else {
      var j :| r - 2 <= j <= r && Triple(Column(g, n, c), j);
      assert 0 <= j < n && Triple(Column(g, n, c), j);
    }
  }

  /** The detector finds nothing exactly when no window of three equal non-null cells exists. */
  lemma NoMatchesIffNoTriple(g: Grid, n: int)
    requires IsSquare(g, n)
    ensures MatchList(g, n) == [] <==> NoTriple(g, n)
  {
    MatchListFacts(g, n);
    if MatchList(g, n) != [] {
      var x := MatchList(g, n)[0];
      assert x in MatchList(g, n);
      MatchedHasTriple(g, n, x.row, x.col);
    } else {
      forall r, c | 0 <= r < n && 0 <= c < n
        ensures !Triple(g[r], c)
      {
        TripleMatched(g, n, r, c);
      }
      forall r, c | 0 <= r < n && 0 <= c < n
        ensures !Triple(Column(g, n, c), r)
      {
        TripleMatched(g, n, r, c);
      }
    }
  }

  // ---------------------------------------------------------------------------
  // Special-candy candidates
  // ---------------------------------------------------------------------------

  /** Every candidate of a row prefix sits in that row, left of column `c`. */
  lemma RowCandidateMember(hor: seq<seq<nat>>, ver: seq<seq<nat>>, n: int, r: int, x: Candidate)
    requires IsSquare(hor, n) && IsSquare(ver, n) && 0 <= r < n
    ensures x in Flatten(RowCandidates(hor, ver, n, r)) <==>
      x.cell.row == r && 0 <= x.cell.col < n && Earns(x.kind, hor[r][x.cell.col], ver[x.cell.col][r])
  {
    var ls := RowCandidates(hor, ver, n, r);
    if x in Flatten(ls) {
      FlattenOrigin(ls, x);
      var c :| 0 <= c < |ls| && x in ls[c];
      CellCandidateRules(Cell(r, c), hor[r][c], ver[c][r]);
    }
    if x.cell.row == r && 0 <= x.cell.col < n && Earns(x.kind, hor[r][x.cell.col], ver[x.cell.col][r]) {
      CellCandidateRules(x.cell, hor[r][x.cell.col], ver[x.cell.col][r]);
      FlattenContains(ls, x.cell.col, x);
    }
  }

  lemma CandidateTableMember(hor: seq<seq<nat>>, ver: seq<seq<nat>>, n: int, x: Candidate)
    requires IsSquare(hor, n) && IsSquare(ver, n)
    ensures x in Flatten(BoardCandidates(hor, ver, n)) <==>
      InBounds(x.cell, n) && Earns(x.kind, hor[x.cell.row][x.cell.col], ver[x.cell.col][x.cell.row])
  {
    var ls := BoardCandidates(hor, ver, n);
    if x in Flatten(ls) {
      FlattenOrigin(ls, x);
      var r :| 0 <= r < |ls| && x in ls[r];
      RowCandidateMember(hor, ver, n, r, x);
    }
    if InBounds(x.cell, n) && Earns(x.kind, hor[x.cell.row][x.cell.col], ver[x.cell.col][x.cell.row]) {
      RowCandidateMember(hor, ver, n, x.cell.row, x);
      FlattenContains(ls, x.cell.row, x);
    }
  }

  lemma RowCandidateNoDup(hor: seq<seq<nat>>, ver: seq<seq<nat>>, n: int, r: int)
    requires IsSquare(hor, n) && IsSquare(ver, n) && 0 <= r < n
    ensures NoDup(Flatten(RowCandidates(hor, ver, n, r)))
  {
    var ls := RowCandidates(hor, ver, n, r);
    forall i | 0 <= i < |ls|
      ensures NoDup(ls[i])
    {
      CellCandidateRules(Cell(r, i), hor[r][i], ver[i][r]);
    }
    forall i, j, x | 0 <= i < j < |ls| && x in ls[i]
      ensures x !in ls[j]
    {
      CellCandidateRules(Cell(r, i), hor[r][i], ver[i][r]);
      CellCandidateRules(Cell(r, j), hor[r][j], ver[j][r]);
    }
    FlattenNoDup(ls);
  }

  lemma CandidateTableNoDup(hor: seq<seq<nat>>, ver: seq<seq<nat>>, n: int)
    requires IsSquare(hor, n) && IsSquare(ver, n)
    ensures NoDup(Flatten(BoardCandidates(hor, ver, n)))
  {
    var ls := BoardCandidates(hor, ver, n);
    forall i | 0 <= i < |ls|
      ensures NoDup(ls[i])
    {
      RowCandidateNoDup(hor, ver, n, i);
    }
    forall i, j, x | 0 <= i < j < |ls| && x in ls[i]
      ensures x !in ls[j]
    {
      RowCandidateMember(hor, ver, n, i, x);
      RowCandidateMember(hor, ver, n, j, x);
    }
    FlattenNoDup(ls);
  }

  /**
   * `specialCandies` lists no candidate twice, and lists a candidate exactly
   * when its cell earns that kind, judged by the cell's run marks.
   */
  lemma CandidateListFacts(g: Grid, n: int)
    requires IsSquare(g, n)
    ensures NoDup(CandidateList(g, n))
    ensures forall x :: x in CandidateList(g, n) <==>
      InBounds(x.cell, n) && Earns(x.kind, HRun(g, n, x.cell.row, x.cell.col), VRun(g, n, x.cell.row, x.cell.col))
  {
    var hor, ver := HorTable(g, n), VerTable(g, n);
    CandidateTableNoDup(hor, ver, n);
    forall x
      ensures x in CandidateList(g, n) <==>
        InBounds(x.cell, n) && Earns(x.kind, HRun(g, n, x.cell.row, x.cell.col), VRun(g, n, x.cell.row, x.cell.col))
    {
      CandidateTableMember(hor, ver, n, x);
    }
  }

  /**
   * The candidate rules, cell by cell, in terms of the lengths of the two runs
   * through the cell:
   *  - a run of 5 or more gives a color-bomb and nothing else;
   *  - otherwise a horizontal run of exactly 4 gives striped-h, a vertical one
   *    striped-v, and two crossing runs of 3 or more give wrapped (a cell can
   *    get striped and wrapped together);
   *  - a cell whose runs are all shorter than 4 and that is not a crossing gets
   *    no candidate;
   *  - every candidate cell is also a matched cell.
   */
  lemma CandidateRules(g: Grid, n: int, r: int, c: int)
    requires IsSquare(g, n) && 0 <= r < n && 0 <= c < n
    ensures Candidate(Cell(r, c), ColorBomb) in CandidateList(g, n) <==> HLen(g, n, r, c) >= 5 || VLen(g, n, r, c) >= 5
    ensures HLen(g, n, r, c) >= 5 || VLen(g, n, r, c) >= 5 ==>
      forall k :: k != ColorBomb ==> Candidate(Cell(r, c), k) !in CandidateList(g, n)
    ensures Candidate(Cell(r, c), StripedH) in CandidateList(g, n) <==> HLen(g, n, r, c) == 4 && VLen(g, n, r, c) < 5
    ensures Candidate(Cell(r, c), StripedV) in CandidateList(g, n) <==> VLen(g, n, r, c) == 4 && HLen(g, n, r, c) < 5
    ensures Candidate(Cell(r, c), Wrapped) in CandidateList(g, n) <==>
      3 <= HLen(g, n, r, c) < 5 && 3 <= VLen(g, n, r, c) < 5
    ensures HLen(g, n, r, c) < 4 && VLen(g, n, r, c) < 4 && (HLen(g, n, r, c) < 3 || VLen(g, n, r, c) < 3) ==>
      forall k :: Candidate(Cell(r, c), k) !in CandidateList(g, n)
    ensures forall k :: Candidate(Cell(r, c), k) in CandidateList(g, n) ==> Cell(r, c) in MatchList(g, n)
  {
    CandidateListFacts(g, n);
    MatchListFacts(g, n);
  }
}
