/**
 * Runs along one line of the board (a row, or a column read top to bottom),
 * and the scan that `findSpecialMatches` performs on every line to fill its
 * run tables `horRun` and `verRun`.
 *
 * A run is a maximal stretch of cells holding the same non-null colour; a
 * null cell is a run of its own, of length 1.
 */
module Runs {
  import opened Types

  /** Cell `i` continues the run of cell `i - 1`: it is non-null and equal to its predecessor. */
  predicate Extends(s: seq<Tile>, i: int) {
    0 < i < |s| && s[i] != None && s[i] == s[i - 1]
  }

  /** How many cells directly before `i` belong to the run of `i`. */
  function Left(s: seq<Tile>, i: int): (k: nat)
    requires 0 <= i < |s|
    ensures k <= i
    decreases i
  {
    if Extends(s, i) then 1 + Left(s, i - 1) else 0
  }

  /** How many cells directly after `i` belong to the run of `i`. */
  function Right(s: seq<Tile>, i: int): (k: nat)
    requires 0 <= i < |s|
    ensures i + k < |s|
    decreases |s| - i
  {
    if Extends(s, i + 1) then 1 + Right(s, i + 1) else 0
  }

  /** Length of the run that contains cell `i`. */
  function RunLength(s: seq<Tile>, i: int): (len: nat)
    requires 0 <= i < |s|
    ensures 1 <= len <= |s|
  {
    Left(s, i) + 1 + Right(s, i)
  }

  /** The run-table entry for cell `i`: the run's length when it is 3 or more, else 0. */
  function RunMark(s: seq<Tile>, i: int): (m: nat)
    requires 0 <= i < |s|
    ensures m == 0 || 3 <= m
  {
    if RunLength(s, i) >= 3 then RunLength(s, i) else 0
  }

  /** Three equal non-null cells start at `j` (the test `removeInitialMatches` makes). */
  predicate Triple(s: seq<Tile>, j: int) {
    0 <= j && j + 2 < |s| && s[j] != None && s[j] == s[j + 1] && s[j] == s[j + 2]
  }

  /** Every cell of the stretch before `j` that belongs to its run sees the same run. */
  lemma {:induction false} RunBlock(s: seq<Tile>, j: int, i: int)
    requires 0 <= j < |s| && j - Left(s, j) <= i <= j
    ensures Left(s, i) == Left(s, j) - (j - i)
    ensures Right(s, i) == Right(s, j) + (j - i)
    decreases j - i
  {
    if i < j {
      assert Extends(s, j);
      RunBlock(s, j - 1, i);
    }
  }

  /** Every cell of the stretch after `i` that belongs to its run sees the same run. */
  lemma {:induction false} RunForward(s: seq<Tile>, i: int, k: int)
    requires 0 <= i < |s| && i <= k <= i + Right(s, i)
    ensures Left(s, k) == Left(s, i) + (k - i)
    ensures Right(s, k) == Right(s, i) - (k - i)
    decreases k - i
  {
    if i < k {
      assert Extends(s, i + 1);
      assert Left(s, i + 1) == Left(s, i) + 1;
      RunForward(s, i + 1, k);
    }
  }

  lemma RunBlockLength(s: seq<Tile>, j: int)
    requires 0 <= j < |s|
    ensures forall i :: j - Left(s, j) <= i <= j ==> RunLength(s, i) == RunLength(s, j)
  {
    forall i | j - Left(s, j) <= i <= j
      ensures RunLength(s, i) == RunLength(s, j)
    {
      RunBlock(s, j, i);
    }
  }

  /**
   * The run of `i` spans `[i - Left, i + Right]`: all its cells hold the colour of
   * `i`, a run of two or more is non-null, and the run cannot be extended on
   * either side.
   */
  lemma {:induction false} RunUniform(s: seq<Tile>, i: int, k: int)
    requires 0 <= i < |s| && i - Left(s, i) <= k <= i + Right(s, i)
    ensures s[k] == s[i]
    ensures RunLength(s, i) >= 2 ==> s[k] != None
    decreases if k < i then i - k else k - i
  {
    if k < i {
      assert Extends(s, i);
      RunUniform(s, i - 1, k);
    } else if k > i {
      assert Extends(s, i + 1);
      assert Left(s, i + 1) == Left(s, i) + 1;
      RunUniform(s, i + 1, k);
    } else if RunLength(s, i) >= 2 {
      assert Extends(s, i) || Extends(s, i + 1);
    }
  }

  lemma RunIsMaximal(s: seq<Tile>, i: int)
    requires 0 <= i < |s|
    ensures !Extends(s, i - Left(s, i))
    ensures !Extends(s, i + Right(s, i) + 1)
  {
    RunBlock(s, i, i - Left(s, i));
    RunForward(s, i, i + Right(s, i));
  }

  /**
   * A cell lies in a run of 3 or more exactly when some window of three equal
   * non-null cells covers it.
   */
  lemma RunLengthIffTriple(s: seq<Tile>, i: int)
    requires 0 <= i < |s|
    ensures RunLength(s, i) >= 3 <==> exists j :: i - 2 <= j <= i && Triple(s, j)
  {
    if RunLength(s, i) >= 3 {
      var hi := i + Right(s, i);
      var j := if i + 2 <= hi then i else hi - 2;
      RunUniform(s, i, j);
      RunUniform(s, i, j + 1);
      RunUniform(s, i, j + 2);
      assert Triple(s, j);
    }
    if j :| i - 2 <= j <= i && Triple(s, j) {
      assert Extends(s, j + 1) && Extends(s, j + 2);
      assert Left(s, j + 2) >= 2;
      RunBlock(s, j + 2, i);
    }
  }

  /**
   * One line of the scan in `findSpecialMatches`: a running `count` of equal
   * neighbours, and whenever a run closes with 3 or more cells, its length is
   * written back over every cell of the run.
   */
  method LineRuns(line: seq<Tile>) returns (runs: seq<nat>)
    requires |line| >= 1
    ensures |runs| == |line|
    ensures forall i :: 0 <= i < |line| ==> runs[i] == RunMark(line, i)
  {
    var n := |line|;
    var table := new nat[n](_ => 0);
    var count := 1;
    var col := 1;
    while col < n
      invariant 1 <= col <= n
      invariant count == Left(line, col - 1) + 1
      invariant forall i :: 0 <= i < col - count ==> table[i] == RunMark(line, i)
      invariant forall i :: col - count <= i < n ==> table[i] == 0
    {
      if line[col] != None && line[col] == line[col - 1] {
        count := count + 1;
      } else {
        RunBlockLength(line, col - 1);
        if count >= 3 {
          for k := 0 to count
            invariant forall i :: 0 <= i < col - count ==> table[i] == RunMark(line, i)
            invariant forall i :: col - count <= i < n ==> table[i] == (if col - k <= i < col then count else 0)
          {
            table[col - k - 1] := count;
          }
        }
        count := 1;
      }
      col := col + 1;
    }
    RunBlockLength(line, n - 1);
    if count >= 3 {
      for k := 0 to count
        invariant forall i :: 0 <= i < n - count ==> table[i] == RunMark(line, i)
        invariant forall i :: n - count <= i < n ==> table[i] == (if n - k <= i then count else 0)
      {
        table[n - 1 - k] := count;
      }
    }
    runs := table[..];
  }
}
