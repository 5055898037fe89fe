/**
 * `activateSpecialCandy` (src/utils/gameUtils.ts): the cells a special candy
 * clears when it goes off, listed in the order the source pushes them.
 */
module Activation {
  import opened Types

  function Max(a: int, b: int): int { if a >= b then a else b }
  function Min(a: int, b: int): int { if a <= b then a else b }

  /** The cells `(r, lo)`, `(r, lo + 1)`, ..., `(r, hi)` of one row. */
  function Segment(r: int, lo: int, hi: int): (s: seq<Cell>)
    ensures |s| == Max(hi - lo + 1, 0)
    ensures forall j :: 0 <= j < |s| ==> s[j] == Cell(r, lo + j)
  {
    seq(Max(hi - lo + 1, 0), j => Cell(r, lo + j))
  }

  /** The cells `(0, c)`, ..., `(n - 1, c)` of one column. */
  function ColumnCells(c: int, n: int): (s: seq<Cell>)
    requires n >= 0
    ensures |s| == n
    ensures forall j :: 0 <= j < n ==> s[j] == Cell(j, c)
  {
    seq(n, j => Cell(j, c))
  }

  /** First and last row (or column) of the wrapped candy's blast around `i`, clipped to the board. */
  function BlockLo(i: int): int { Max(0, i - 1) }
  function BlockHi(i: int, n: int): int { Min(n - 1, i + 1) }

  /** The wrapped blast around `(row, col)`, one segment per row. */
  function BlockRows(row: int, col: int, n: int): (ls: seq<seq<Cell>>)
    ensures |ls| == Max(BlockHi(row, n) - BlockLo(row) + 1, 0)
    ensures forall i :: 0 <= i < |ls| ==> ls[i] == Segment(BlockLo(row) + i, BlockLo(col), BlockHi(col, n))
  {
    seq(Max(BlockHi(row, n) - BlockLo(row) + 1, 0), i => Segment(BlockLo(row) + i, BlockLo(col), BlockHi(col, n)))
  }

  /** The cell `(r, c)` if it holds colour `k`. */
  function ColorCell(grid: Grid, n: int, k: int, r: int, c: int): seq<Cell>
    requires IsSquare(grid, n) && 0 <= r < n && 0 <= c < n
  {
    if grid[r][c] == Some(k) then [Cell(r, c)] else []
  }

  /** The cells of row `r` holding colour `k`, one list per column. */
  function ColorRow(grid: Grid, n: int, k: int, r: int): (ls: seq<seq<Cell>>)
    requires IsSquare(grid, n) && 0 <= r < n
    ensures |ls| == n && forall c :: 0 <= c < n ==> ls[c] == ColorCell(grid, n, k, r, c)
  {
    seq(n, c requires 0 <= c < n => ColorCell(grid, n, k, r, c))
  }

  /** The cells of the board holding colour `k`, one list per row. */
  function ColorRows(grid: Grid, n: int, k: int): (ls: seq<seq<Cell>>)
    requires IsSquare(grid, n)
    ensures |ls| == n && forall r :: 0 <= r < n ==> ls[r] == Flatten(ColorRow(grid, n, k, r))
  {
    seq(n, r requires 0 <= r < n => Flatten(ColorRow(grid, n, k, r)))
  }

  /** The colour a color-bomb clears: the target colour when one is given, else the bomb's own cell. */
  function BombColor(grid: Grid, n: int, row: int, col: int, target: Option<int>): Tile
    requires IsSquare(grid, n) && InBounds(Cell(row, col), n)
  {
    if target.Some? then target else grid[row][col]
  }

  /** The cells cleared when the candy at `(row, col)` is activated, in the source's order. */
  function ActivationCells(grid: Grid, specials: SpecialGrid, row: int, col: int, n: int, target: Option<int>): seq<Cell>
    requires IsSquare(grid, n) && IsSquare(specials, n) && InBounds(Cell(row, col), n)
  {
    match specials[row][col].kind
    case Normal => []
    case StripedH => Segment(row, 0, n - 1)
    case StripedV => ColumnCells(col, n)
    case Wrapped => Flatten(BlockRows(row, col, n))
    case ColorBomb =>
      var k := BombColor(grid, n, row, col, target);
      if k.None? then [] else Flatten(ColorRows(grid, n, k.value))
    case Jelly => [Cell(row, col)]
  }

  // ---------------------------------------------------------------------------
  // The activation as the source runs it.
  // ---------------------------------------------------------------------------

  method ActivateSpecialCandy(grid: Grid, specials: SpecialGrid, row: int, col: int, n: int, target: Option<int>)
    returns (cells: seq<Cell>)
    requires IsSquare(grid, n) && IsSquare(specials, n) && InBounds(Cell(row, col), n)
    ensures cells == ActivationCells(grid, specials, row, col, n, target)
  {
    cells := [];
    var special := specials[row][col];
    match special.kind {
      case Normal =>
      case StripedH =>
        ghost var line := Segment(row, 0, n - 1);
        for c := 0 to n
          invariant cells == line[..c]
        {
          assert line[..c + 1] == line[..c] + [Cell(row, c)];
          cells := cells + [Cell(row, c)];
        }
        assert line[..n] == line;
      case StripedV =>
        ghost var line := ColumnCells(col, n);
        for r := 0 to n
          invariant cells == line[..r]
        {
          assert line[..r + 1] == line[..r] + [Cell(r, col)];
          cells := cells + [Cell(r, col)];
        }
        assert line[..n] == line;
      case Wrapped =>
        cells := WrappedBlast(row, col, n);
      case ColorBomb =>
        var colorToRemove := if target.Some? then target else grid[row][col];
        if colorToRemove.Some? {
          cells := ColorSweep(grid, n, colorToRemove.value);
        }
      case Jelly =>
        cells := [Cell(row, col)];
    }
  }

  /** The two nested loops of the wrapped case. */
  method WrappedBlast(row: int, col: int, n: int) returns (cells: seq<Cell>)
    requires InBounds(Cell(row, col), n)
    ensures cells == Flatten(BlockRows(row, col, n))
  {
    ghost var block := BlockRows(row, col, n);
    var r0, r1 := Max(0, row - 1), Min(n - 1, row + 1);
    var c0, c1 := Max(0, col - 1), Min(n - 1, col + 1);
    cells := [];
    for r := r0 to r1 + 1
      invariant cells == Flatten(block[..r - r0])
    {
      ghost var line := Segment(r, c0, c1);
      assert block[r - r0] == line;
      for c := c0 to c1 + 1
        invariant cells == Flatten(block[..r - r0]) + line[..c - c0]
      {
        assert line[..c - c0 + 1] == line[..c - c0] + [Cell(r, c)];
        cells := cells + [Cell(r, c)];
      }
      assert line[..c1 - c0 + 1] == line;
      FlattenPrefix(block, r - r0);
    }
    assert block[..r1 + 1 - r0] == block;
  }

  /** The two nested loops of the color-bomb case, for a non-null colour `k`. */
  method ColorSweep(grid: Grid, n: int, k: int) returns (cells: seq<Cell>)
    requires IsSquare(grid, n)
    ensures cells == Flatten(ColorRows(grid, n, k))
  {
    ghost var rows := ColorRows(grid, n, k);
    cells := [];
    for r := 0 to n
      invariant cells == Flatten(rows[..r])
    {
      ghost var line := ColorRow(grid, n, k, r);
      for c := 0 to n
        invariant cells == Flatten(rows[..r]) + Flatten(line[..c])
      {
        FlattenPrefix(line, c);
        AppendAssoc(Flatten(rows[..r]), Flatten(line[..c]), line[c]);
        if grid[r][c] == Some(k) {
          cells := cells + [Cell(r, c)];
        }
      }
      assert line[..n] == line;
      FlattenPrefix(rows, r);
    }
    assert rows[..n] == rows;
  }

  // ---------------------------------------------------------------------------
  // What each blast covers.
  // ---------------------------------------------------------------------------

  lemma SegmentMember(r: int, lo: int, hi: int, x: Cell)
    ensures x in Segment(r, lo, hi) <==> x.row == r && lo <= x.col <= hi
  {
    if x.row == r && lo <= x.col <= hi {
      assert Segment(r, lo, hi)[x.col - lo] == x;
    }
  }

  lemma SegmentNoDup(r: int, lo: int, hi: int)
    ensures NoDup(Segment(r, lo, hi))
  {
  }

  lemma ColumnMember(c: int, n: int, x: Cell)
    requires n >= 0
    ensures x in ColumnCells(c, n) <==> x.col == c && 0 <= x.row < n
  {
    if x.col == c && 0 <= x.row < n {
      assert ColumnCells(c, n)[x.row] == x;
    }
  }

  lemma BlockMember(row: int, col: int, n: int, x: Cell)
    ensures x in Flatten(BlockRows(row, col, n)) <==>
      InBounds(x, n) && row - 1 <= x.row <= row + 1 && col - 1 <= x.col <= col + 1
  {
    var ls := BlockRows(row, col, n);
    if x in Flatten(ls) {
      FlattenOrigin(ls, x);
      var i :| 0 <= i < |ls| && x in ls[i];
      SegmentMember(BlockLo(row) + i, BlockLo(col), BlockHi(col, n), x);
    }
    if InBounds(x, n) && row - 1 <= x.row <= row + 1 && col - 1 <= x.col <= col + 1 {
      var i := x.row - BlockLo(row);
      SegmentMember(BlockLo(row) + i, BlockLo(col), BlockHi(col, n), x);
      FlattenContains(ls, i, x);
    }
  }

  lemma BlockNoDup(row: int, col: int, n: int)
    ensures NoDup(Flatten(BlockRows(row, col, n)))
  {
    var ls := BlockRows(row, col, n);
    forall i | 0 <= i < |ls|
      ensures NoDup(ls[i])
    {
      SegmentNoDup(BlockLo(row) + i, BlockLo(col), BlockHi(col, n));
    }
    forall i, j, x | 0 <= i < j < |ls| && x in ls[i]
      ensures x !in ls[j]
    {
      SegmentMember(BlockLo(row) + i, BlockLo(col), BlockHi(col, n), x);
      SegmentMember(BlockLo(row) + j, BlockLo(col), BlockHi(col, n), x);
    }
    FlattenNoDup(ls);
  }

  lemma ColorRowMember(grid: Grid, n: int, k: int, r: int, x: Cell)
    requires IsSquare(grid, n) && 0 <= r < n
    ensures x in Flatten(ColorRow(grid, n, k, r)) <==> x.row == r && 0 <= x.col < n && grid[r][x.col] == Some(k)
  {
    var ls := ColorRow(grid, n, k, r);
    if x in Flatten(ls) {
      FlattenOrigin(ls, x);
    }
    if x.row == r && 0 <= x.col < n && grid[r][x.col] == Some(k) {
      FlattenContains(ls, x.col, x);
    }
  }

  lemma ColorMember(grid: Grid, n: int, k: int, x: Cell)
    requires IsSquare(grid, n)
    ensures x in Flatten(ColorRows(grid, n, k)) <==> InBounds(x, n) && grid[x.row][x.col] == Some(k)
  {
    var ls := ColorRows(grid, n, k);
    if x in Flatten(ls) {
      FlattenOrigin(ls, x);
      var r :| 0 <= r < |ls| && x in ls[r];
      ColorRowMember(grid, n, k, r, x);
    }
    if InBounds(x, n) && grid[x.row][x.col] == Some(k) {
      ColorRowMember(grid, n, k, x.row, x);
      FlattenContains(ls, x.row, x);
    }
  }

  lemma ColorNoDup(grid: Grid, n: int, k: int)
    requires IsSquare(grid, n)
    ensures NoDup(Flatten(ColorRows(grid, n, k)))
  {
    var ls := ColorRows(grid, n, k);
    forall r | 0 <= r < |ls|
      ensures NoDup(ls[r])
    {
      var line := ColorRow(grid, n, k, r);
      forall i, j, x | 0 <= i < j < |line| && x in line[i]
        ensures x !in line[j]
      {
      }
      FlattenNoDup(line);
    }
    forall i, j, x | 0 <= i < j < |ls| && x in ls[i]
      ensures x !in ls[j]
    {
      ColorRowMember(grid, n, k, i, x);
      ColorRowMember(grid, n, k, j, x);
    }
    FlattenNoDup(ls);
  }

  /**
   * What an activation clears, kind by kind: nothing for a plain candy; the
   * whole row for striped-h and the whole column for striped-v; the 3 by 3
   * block around the candy, clipped to the board, for wrapped; every cell of
   * the bomb's colour (the target colour when one is given) for a
   * color-bomb, and nothing when that colour is null; the candy's own cell
   * for jelly.  No cell is listed twice and every cell is on the board.
   */
  lemma ActivationFacts(grid: Grid, specials: SpecialGrid, row: int, col: int, n: int, target: Option<int>)
    requires IsSquare(grid, n) && IsSquare(specials, n) && InBounds(Cell(row, col), n)
    ensures NoDup(ActivationCells(grid, specials, row, col, n, target))
    ensures forall x :: x in ActivationCells(grid, specials, row, col, n, target) ==> InBounds(x, n)
    ensures specials[row][col].kind == Normal ==> ActivationCells(grid, specials, row, col, n, target) == []
    ensures specials[row][col].kind == StripedH ==>
      |ActivationCells(grid, specials, row, col, n, target)| == n &&
      forall x :: x in ActivationCells(grid, specials, row, col, n, target) <==> InBounds(x, n) && x.row == row
    ensures specials[row][col].kind == StripedV ==>
      |ActivationCells(grid, specials, row, col, n, target)| == n &&
      forall x :: x in ActivationCells(grid, specials, row, col, n, target) <==> InBounds(x, n) && x.col == col
    ensures specials[row][col].kind == Wrapped ==>
      forall x :: x in ActivationCells(grid, specials, row, col, n, target) <==>
        InBounds(x, n) && row - 1 <= x.row <= row + 1 && col - 1 <= x.col <= col + 1
    ensures specials[row][col].kind == ColorBomb ==>
      forall x :: x in ActivationCells(grid, specials, row, col, n, target) <==>
        InBounds(x, n) && BombColor(grid, n, row, col, target).Some? && grid[x.row][x.col] == BombColor(grid, n, row, col, target)
    ensures specials[row][col].kind == Jelly ==> ActivationCells(grid, specials, row, col, n, target) == [Cell(row, col)]
  {
    var cells := ActivationCells(grid, specials, row, col, n, target);
    match specials[row][col].kind
    case Normal =>
    case StripedH =>
      SegmentNoDup(row, 0, n - 1);
      forall x ensures x in cells <==> InBounds(x, n) && x.row == row {
        SegmentMember(row, 0, n - 1, x);
      }
    case StripedV =>
      forall x ensures x in cells <==> InBounds(x, n) && x.col == col {
        ColumnMember(col, n, x);
      }
    case Wrapped =>
      BlockNoDup(row, col, n);
      forall x ensures x in cells <==> InBounds(x, n) && row - 1 <= x.row <= row + 1 && col - 1 <= x.col <= col + 1 {
        BlockMember(row, col, n, x);
      }
    case ColorBomb =>
      var k := BombColor(grid, n, row, col, target);
      if k.Some? {
        ColorNoDup(grid, n, k.value);
        forall x ensures x in cells <==> InBounds(x, n) && grid[x.row][x.col] == k {
          ColorMember(grid, n, k.value, x);
        }
      }
    case Jelly =>
  }
}
