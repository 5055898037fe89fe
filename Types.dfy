/**
 * Shared vocabulary of the match-3 engine: cells, the colour grid with its
 * null holes, the special-candy overlay and the random-colour oracle.
 */
module Types {

  datatype Option<T> = None | Some(value: T)

  /** A board position; `row` and `col` are 0-based. */
  datatype Cell = Cell(row: int, col: int)

  /** One grid entry: a colour index into the palette, or `None` for an emptied cell. */
  type Tile = Option<int>

  /** The colour board, indexed `grid[row][col]`. */
  type Grid = seq<seq<Tile>>

  /** The tags a candy can carry; candidates produced by the detector use the four middle ones. */
  datatype CandyType = Normal | StripedH | StripedV | Wrapped | ColorBomb | Jelly

  /** A special-candy record: its tag and the colour it carries. */
  datatype Special = Special(kind: CandyType, color: int)

  /** The special-candy overlay, indexed like the grid. */
  type SpecialGrid = seq<seq<Special>>

  predicate InBounds(c: Cell, n: int) {
    0 <= c.row < n && 0 <= c.col < n
  }

  /** `g` is an `n` by `n` matrix. */
  predicate IsSquare<T>(g: seq<seq<T>>, n: int) {
    |g| == n && forall r :: 0 <= r < n ==> |g[r]| == n
  }

  /** Column `c` of a board (or of the special-candy overlay), read top to bottom. */
  function Column<T>(g: seq<seq<T>>, n: int, c: int): (s: seq<T>)
    requires IsSquare(g, n) && 0 <= c < n
    ensures |s| == n && forall r :: 0 <= r < n ==> s[r] == g[r][c]
  {
    seq(n, r requires 0 <= r < n => g[r][c])
  }

  /** `g` with the entry at `(r, c)` replaced by `v`: `g[r][c] = v` on a copied board. */
  function SetCell<T>(g: seq<seq<T>>, n: int, r: int, c: int, v: T): (g': seq<seq<T>>)
    requires IsSquare(g, n) && 0 <= r < n && 0 <= c < n
    ensures IsSquare(g', n)
    ensures forall i, j :: 0 <= i < n && 0 <= j < n ==> g'[i][j] == if i == r && j == c then v else g[i][j]
  {
    g[r := g[r][c := v]]
  }

  /** Two `n` by `n` boards that agree at every cell are the same board. */
  lemma GridEqual<T>(a: seq<seq<T>>, b: seq<seq<T>>, n: int)
    requires IsSquare(a, n) && IsSquare(b, n)
    requires forall r, c :: 0 <= r < n && 0 <= c < n ==> a[r][c] == b[r][c]
    ensures a == b
  {
    forall r | 0 <= r < n
      ensures a[r] == b[r]
    {
      assert forall c :: 0 <= c < n ==> a[r][c] == b[r][c];
    }
  }

  /** No cell of the board is empty. */
  predicate NoNulls(g: Grid, n: int)
    requires IsSquare(g, n)
  {
    forall r, c :: 0 <= r < n && 0 <= c < n ==> g[r][c].Some?
  }

  /**
   * The random-colour oracle: draw number `i` is `roll(i)`, standing for
   * `Math.floor(Math.random() * colors.length)`.  A valid oracle only
   * produces palette indices.
   */
  ghost predicate ValidDice(roll: nat -> int, nColors: int) {
    forall i: nat :: 0 <= roll(i) < nColors
  }

  /** A list without repeated elements. */
  predicate NoDup<T(==)>(s: seq<T>) {
    forall i, j :: 0 <= i < j < |s| ==> s[i] != s[j]
  }

  /** Proof step: sequence concatenation regroups. */
  lemma AppendAssoc<T>(a: seq<T>, b: seq<T>, c: seq<T>)
    ensures (a + b) + c == a + (b + c)
  {
  }

  lemma NoDupConcat<T>(a: seq<T>, b: seq<T>)
    requires NoDup(a) && NoDup(b)
    requires forall x :: x in a ==> x !in b
    ensures NoDup(a + b)
  {
    forall i, j | 0 <= i < j < |a + b|
      ensures (a + b)[i] != (a + b)[j]
    {
      if i < |a| && j >= |a| {
        assert (a + b)[i] in a;
        assert (a + b)[j] == b[j - |a|];
      }
    }
  }

  /** The lists of `ls` joined end to end, in order. */
  function Flatten<T>(ls: seq<seq<T>>): seq<T>
  {
    if |ls| == 0 then [] else Flatten(ls[..|ls| - 1]) + ls[|ls| - 1]
  }

  /** Joining one more list onto a prefix. */
  lemma FlattenPrefix<T>(ls: seq<seq<T>>, k: int)
    requires 0 <= k < |ls|
    ensures Flatten(ls[..k + 1]) == Flatten(ls[..k]) + ls[k]
  {
    assert ls[..k + 1][..k] == ls[..k];
  }

  /** Every element of the joined list comes from one of the lists. */
  lemma {:induction false} FlattenOrigin<T>(ls: seq<seq<T>>, x: T)
    requires x in Flatten(ls)
    ensures exists i :: 0 <= i < |ls| && x in ls[i]
    decreases |ls|
  {
    var init := ls[..|ls| - 1];
    if x in Flatten(init) {
      FlattenOrigin(init, x);
      var i :| 0 <= i < |init| && x in init[i];
      assert x in ls[i];
    } else {
      assert x in ls[|ls| - 1];
    }
  }

  /** Every element of every list is in the joined list. */
  lemma {:induction false} FlattenContains<T>(ls: seq<seq<T>>, i: int, x: T)
    requires 0 <= i < |ls| && x in ls[i]
    ensures x in Flatten(ls)
    decreases |ls|
  {
    var init := ls[..|ls| - 1];
    if i < |ls| - 1 {
      assert x in init[i];
      FlattenContains(init, i, x);
    }
  }

  /** Joining duplicate-free, pairwise disjoint lists gives a duplicate-free list. */
  lemma {:induction false} FlattenNoDup<T>(ls: seq<seq<T>>)
    requires forall i :: 0 <= i < |ls| ==> NoDup(ls[i])
    requires forall i, j, x :: 0 <= i < j < |ls| && x in ls[i] ==> x !in ls[j]
    ensures NoDup(Flatten(ls))
    decreases |ls|
  {
    if |ls| > 0 {
      var init := ls[..|ls| - 1];
      FlattenNoDup(init);
      forall x | x in Flatten(init)
        ensures x !in ls[|ls| - 1]
      {
        FlattenOrigin(init, x);
        var i :| 0 <= i < |init| && x in init[i];
        assert x in ls[i];
      }
      NoDupConcat(Flatten(init), ls[|ls| - 1]);
    }
  }
}
