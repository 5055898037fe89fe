/**
 * The small helpers of src/utils/gameUtils.ts: cell identity, adjacency,
 * mapping a pointer position to a cell, and masking a player's name.
 */
module Helpers {
  import opened Types

  function Abs(x: int): (a: nat)
    ensures a == x || a == -x
  {
    if x < 0 then -x else x
  }

  /** `cellsEqual`: the same row and the same column. */
  function CellsEqual(a: Cell, b: Cell): (eq: bool)
    ensures eq <==> a == b
  {
    a.row == b.row && a.col == b.col
  }

  lemma CellsEqualReflexiveSymmetric(a: Cell, b: Cell)
    ensures CellsEqual(a, a)
    ensures CellsEqual(a, b) == CellsEqual(b, a)
  {
  }

  /**
   * `areAdjacent`: one step apart along a row or a column, which is the
   * same as a Manhattan distance of exactly one.
   */
  function AreAdjacent(a: Cell, b: Cell): (adj: bool)
    ensures adj <==> Abs(a.row - b.row) + Abs(a.col - b.col) == 1
    ensures adj ==> a != b
  {
    var rowDiff := Abs(a.row - b.row);
    var colDiff := Abs(a.col - b.col);
    (rowDiff == 1 && colDiff == 0) || (rowDiff == 0 && colDiff == 1)
  }

  lemma AdjacentSymmetric(a: Cell, b: Cell)
    ensures AreAdjacent(a, b) == AreAdjacent(b, a)
  {
  }

  /** The four neighbours of a cell are adjacent to it, and no other cell is. */
  lemma AdjacentNeighbours(a: Cell, b: Cell)
    ensures AreAdjacent(a, b) <==>
      b in {Cell(a.row - 1, a.col), Cell(a.row + 1, a.col), Cell(a.row, a.col - 1), Cell(a.row, a.col + 1)}
  {
  }

  /**
   * `getCellFromPosition`: the cell under the point `(x, y)` of a board drawn
   * with square cells of side `cellSize`, or none when the point is off the
   * board.  Column and row are the floors of `x / cellSize` and
   * `y / cellSize`.  A zero `cellSize` makes both quotients infinite or NaN
   * in the source, which fails every range test, so the result is none.
   */
  function GetCellFromPosition(x: real, y: real, cellSize: real, gridSize: int): (cell: Option<Cell>)
    ensures cell.Some? ==> InBounds(cell.value, gridSize)
    ensures cellSize != 0.0 ==>
      (cell.Some? <==> 0 <= (x / cellSize).Floor < gridSize && 0 <= (y / cellSize).Floor < gridSize)
    ensures cell.Some? ==> cellSize != 0.0 && cell.value == Cell((y / cellSize).Floor, (x / cellSize).Floor)
  {
    if cellSize == 0.0 then None
    else
      var col := (x / cellSize).Floor;
      var row := (y / cellSize).Floor;
      if row >= 0 && row < gridSize && col >= 0 && col < gridSize then Some(Cell(row, col)) else None
  }

  /** `q.Floor` is the whole number at or below `q`, less than one below it. */
  lemma FloorBounds(q: real)
    ensures q.Floor as real <= q < q.Floor as real + 1.0
  {
  }

  /**
   * The cell returned is the one that holds the point: measured in cell
   * sides, the point lies at or after the cell's left and top edges and
   * before its right and bottom edges.
   */
  lemma PositionInsideCell(x: real, y: real, cellSize: real, gridSize: int)
    requires GetCellFromPosition(x, y, cellSize, gridSize).Some?
    ensures var cell := GetCellFromPosition(x, y, cellSize, gridSize).value;
      cell.col as real <= x / cellSize < cell.col as real + 1.0 &&
      cell.row as real <= y / cellSize < cell.row as real + 1.0
  {
    FloorBounds(x / cellSize);
    FloorBounds(y / cellSize);
  }

  /**
   * A UTF-16 code unit.  JavaScript strings are sequences of these, and
   * `slice` counts them, so a character outside the basic plane (a
   * surrogate pair) takes two.
   */
  newtype CodeUnit = x: int | 0 <= x < 0x1_0000

  /** A JavaScript string: its UTF-16 code units. */
  type JsString = seq<CodeUnit>

  /** `***`. */
  const Stars: JsString := [0x2A, 0x2A, 0x2A]

  /** The name shown for a player with no name and no phone number, `\u533F\u540D`. */
  const Anonymous: JsString := [0x533F, 0x540D]

  /** The first four code units of `s` (all of it when shorter), then `***`. */
  function Masked(s: JsString): (m: JsString)
    ensures |m| == (if |s| < 4 then |s| else 4) + 3
    ensures m[..|m| - 3] == s[..|m| - 3] && m[|m| - 3..] == Stars
  {
    (if |s| < 4 then s else s[..4]) + Stars
  }

  /**
   * `maskName`: the masked username when there is a non-empty one, else the
   * masked phone number when there is a non-empty one, else the anonymous
   * label.  An empty string counts as absent, as it does in the source.
   */
  function MaskName(username: Option<JsString>, phone: Option<JsString>): (shown: JsString)
    ensures username.Some? && username.value != [] ==> shown == Masked(username.value)
    ensures (username.None? || username.value == []) && phone.Some? && phone.value != [] ==> shown == Masked(phone.value)
    ensures (username.None? || username.value == []) && (phone.None? || phone.value == []) ==> shown == Anonymous
  {
    if username.Some? && username.value != [] then Masked(username.value)
    else if phone.Some? && phone.value != [] then Masked(phone.value)
    else Anonymous
  }

  /**
   * At most four code units of the name ever show: the result is either the
   * anonymous label or a prefix of the username or of the phone number of
   * one to four code units followed by `***`.
   */
  lemma MaskNameReveals(username: Option<JsString>, phone: Option<JsString>)
    ensures var shown := MaskName(username, phone);
      shown == Anonymous ||
      (4 <= |shown| <= 7 && shown[|shown| - 3..] == Stars &&
       ((username.Some? && shown[..|shown| - 3] <= username.value) ||
        (phone.Some? && shown[..|shown| - 3] <= phone.value)))
  {
    var shown := MaskName(username, phone);
    if username.Some? && username.value != [] {
      assert shown[..|shown| - 3] == username.value[..|shown| - 3];
    } else if phone.Some? && phone.value != [] {
      assert shown[..|shown| - 3] == phone.value[..|shown| - 3];
    }
  }

  /**
   * A character outside the basic plane counts as two units, so a name of
   * three such characters (three surrogate pairs) shows only two of them.
   */
  lemma SurrogatePairsCountTwice()
    ensures var name: JsString := [0xD83D, 0xDE00, 0xD83D, 0xDE00, 0xD83D, 0xDE00];
      MaskName(Some(name), None) == [0xD83D, 0xDE00, 0xD83D, 0xDE00] + Stars
  {
    var name: JsString := [0xD83D, 0xDE00, 0xD83D, 0xDE00, 0xD83D, 0xDE00];
    assert name[..4] == [0xD83D, 0xDE00, 0xD83D, 0xDE00];
  }
}
