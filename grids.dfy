/**
 * Two-dimensional arrays: the first two axes (rows, columns) of the numpy arrays the
 * segmentation backend works on. The shape is kept beside the cells, as numpy keeps it,
 * so that an array with no rows still has a width.
 */
module Grids {

  /** `height` rows of `width` cells each, once `Valid()`. */
  datatype Grid<+T> = Grid(height: nat, width: nat, cells: seq<seq<T>>)
  {
    /** The cells form a `height` by `width` rectangle. */
    ghost predicate Valid() {
      |cells| == height && forall i :: 0 <= i < height ==> |cells[i]| == width
    }

    /** The cell in row `i`, column `j`. */
    function At(i: nat, j: nat): T
      requires Valid()
      requires i < height && j < width
    {
      cells[i][j]
    }
  }

  /** `n` copies of `x`. */
  function Fill<T>(n: nat, x: T): (s: seq<T>)
    ensures |s| == n
    ensures forall i :: 0 <= i < n ==> s[i] == x
  {
    seq(n, _ => x)
  }

  /** Applies `f` to every cell, keeping the shape. */
  function Map<T, U>(g: Grid<T>, f: T -> U): (r: Grid<U>)
    requires g.Valid()
    ensures r.Valid() && r.height == g.height && r.width == g.width
    ensures forall i: nat, j: nat :: i < g.height && j < g.width ==> r.At(i, j) == f(g.At(i, j))
  {
    Grid(g.height, g.width, seq(g.height, i requires 0 <= i < g.height =>
      seq(g.width, j requires 0 <= j < g.width => f(g.cells[i][j]))))
  }

  /** Two valid grids of one shape that agree on every cell are equal. */
  lemma GridExt<T>(a: Grid<T>, b: Grid<T>)
    requires a.Valid() && b.Valid()
    requires a.height == b.height && a.width == b.width
    requires forall i: nat, j: nat :: i < a.height && j < a.width ==> a.At(i, j) == b.At(i, j)
    ensures a == b
  {
    forall i | 0 <= i < a.height
      ensures a.cells[i] == b.cells[i]
    {
      forall j | 0 <= j < a.width
        ensures a.cells[i][j] == b.cells[i][j]
      {
        assert a.At(i, j) == b.At(i, j);
      }
    }
  }
}
