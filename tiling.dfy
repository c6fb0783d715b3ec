/**
 * The integer and array part of the segmentation backend: zero-padding an image up to a
 * multiple of the patch size, cutting it into non-overlapping square tiles in row-major
 * order, putting tiles back together, and cropping the padding away again.
 */
module Tiling {
  import opened Grids
  import opened DivMod

  // ---------------------------------------------------------------------------------------
  // Padding

  /** How much a length `n` is padded by: `(p - n % p) % p`. */
  function PadAmount(n: nat, p: nat): (pad: nat)
    requires p > 0
    ensures pad < p
    ensures (n + pad) % p == 0
    ensures pad == 0 <==> n % p == 0
  {
    var q, r := n / p, n % p;
    assert n == q * p + r;
    if r == 0 then
      assert (p - r) % p == 0 by { DivModOf(1, 0, p); }
      (p - r) % p
    else
      assert (p - r) % p == p - r by { DivModOf(0, p - r, p); }
      assert (n + (p - r)) % p == 0 by {
        assert n + (p - r) == (q + 1) * p + 0;
        DivModOf(q + 1, 0, p);
      }
      (p - r) % p
  }

  /** No smaller padding reaches a multiple of `p`: `PadAmount` is the least one. */
  lemma PadAmountIsLeast(n: nat, p: nat, q: nat)
    requires p > 0
    requires q < PadAmount(n, p)
    ensures (n + q) % p != 0
  {
    var r := n % p;
    assert n == (n / p) * p + r;
    assert r != 0;
    assert q < p - r by { DivModOf(0, p - r, p); }
    assert n + q == (n / p) * p + (r + q);
    DivModOf(n / p, r + q, p);
  }

  /**
   * Constant (zero) padding by `padH` rows at the bottom and `padW` columns at the right:
   * numpy's `np.pad(g, ((0, padH), (0, padW), (0, 0)), mode='constant')`.
   */
  function ZeroPad<T>(g: Grid<T>, padH: nat, padW: nat, zero: T): (r: Grid<T>)
    requires g.Valid()
    ensures r.Valid()
    ensures r.height == g.height + padH && r.width == g.width + padW
    ensures forall i: nat, j: nat :: i < g.height && j < g.width ==> r.At(i, j) == g.At(i, j)
    ensures forall i: nat, j: nat :: i < r.height && j < r.width && (i >= g.height || j >= g.width) ==> r.At(i, j) == zero
  {
    var extended := seq(g.height, i requires 0 <= i < g.height => g.cells[i] + Fill(padW, zero));
    var below := Fill(padH, Fill(g.width + padW, zero));
    var r := Grid(g.height + padH, g.width + padW, extended + below);
    forall i | 0 <= i < r.height
      ensures |r.cells[i]| == r.width
      ensures forall j :: 0 <= j < r.width ==> r.cells[i][j] == if i < g.height && j < g.width then g.cells[i][j] else zero
    {
      if i < g.height {
        assert r.cells[i] == g.cells[i] + Fill(padW, zero);
      } else {
        assert r.cells[i] == Fill(g.width + padW, zero);
      }
    }
    r
  }

  /** The result of padding an image: the padded image and the two pad amounts. */
  datatype Padded<T> = Padded(image: Grid<T>, padH: nat, padW: nat)

  /** Pads an image with zeros on the bottom and right up to the next multiple of `p` in each dimension. */
  function PadImage<T>(g: Grid<T>, p: nat, zero: T): (r: Padded<T>)
    requires g.Valid() && p > 0
    ensures r.image.Valid()
    ensures r.padH < p && r.padW < p
    ensures r.image.height == g.height + r.padH && r.image.height % p == 0
    ensures r.image.width == g.width + r.padW && r.image.width % p == 0
    ensures g.height % p == 0 ==> r.padH == 0
    ensures g.width % p == 0 ==> r.padW == 0
    ensures r.image == ZeroPad(g, r.padH, r.padW, zero)
  {
    var padH := PadAmount(g.height, p);
    var padW := PadAmount(g.width, p);
    Padded(ZeroPad(g, padH, padW, zero), padH, padW)
  }

  /** A padded length holds `ceil(n / p)` whole tiles. */
  lemma PaddedTileCount(n: nat, p: nat)
    requires p > 0
    ensures (n + PadAmount(n, p)) / p == (n + p - 1) / p
  {
    var pad := PadAmount(n, p);
    var q := (n + pad) / p;
    assert n + pad == q * p;
    assert n + p - 1 == q * p + (p - 1 - pad);
    DivModOf(q, p - 1 - pad, p);
  }

  // ---------------------------------------------------------------------------------------
  // Cropping

  /** `n` less `k`, down to zero: the length of the Python slice `s[:-k]` for `k > 0`. */
  function ShortenedBy(n: nat, k: nat): nat {
    if k <= n then n - k else 0
  }

  /**
   * Python's `s[:-k]`. The stop index `-k` counts from the end and is clamped at the start, so a
   * `k` past the length gives the empty slice; and since `-0 == 0`, `s[:-0]` is empty as well.
   */
  function DropLast<T>(s: seq<T>, k: nat): (r: seq<T>)
    ensures |r| == if k == 0 then 0 else ShortenedBy(|s|, k)
    ensures forall i :: 0 <= i < |r| ==> r[i] == s[i]
  {
    if k == 0 || k > |s| then [] else s[..|s| - k]
  }

  /** `g[:-k, :]`: all rows but the last `k`. Without a guard, `k == 0` would drop every row. */
  function DropRows<T>(g: Grid<T>, k: nat): (r: Grid<T>)
    requires g.Valid()
    ensures r.Valid()
    ensures r.height == (if k == 0 then 0 else ShortenedBy(g.height, k)) && r.width == g.width
    ensures forall i: nat, j: nat :: i < r.height && j < r.width ==> r.At(i, j) == g.At(i, j)
  {
    var rows := DropLast(g.cells, k);
    Grid(|rows|, g.width, rows)
  }

  /** `g[:, :-k]`: every row without its last `k` cells. Without a guard, `k == 0` would drop every column. */
  function DropColumns<T>(g: Grid<T>, k: nat): (r: Grid<T>)
    requires g.Valid()
    ensures r.Valid()
    ensures r.height == g.height && r.width == (if k == 0 then 0 else ShortenedBy(g.width, k))
    ensures forall i: nat, j: nat :: i < r.height && j < r.width ==> r.At(i, j) == g.At(i, j)
  {
    var w := if k == 0 then 0 else ShortenedBy(g.width, k);
    Grid(g.height, w, seq(g.height, i requires 0 <= i < g.height => DropLast(g.cells[i], k)))
  }

  /**
   * `remove_padding`: drops the last `padH` rows and the last `padW` columns, each only when
   * that pad is positive, so a zero pad leaves its dimension as it is.
   */
  function RemovePadding<T>(g: Grid<T>, padH: nat, padW: nat): (r: Grid<T>)
    requires g.Valid()
    ensures r.Valid()
    ensures r.height == ShortenedBy(g.height, padH)
    ensures r.width == ShortenedBy(g.width, padW)
    ensures forall i: nat, j: nat :: i < r.height && j < r.width ==> r.At(i, j) == g.At(i, j)
    ensures padH == 0 && padW == 0 ==> r == g
  {
    var rowsCut := if padH > 0 then DropRows(g, padH) else g;
    if padW > 0 then DropColumns(rowsCut, padW) else rowsCut
  }

  /**
   * The guards in `remove_padding` matter: on a non-empty grid, slicing with a zero pad would
   * drop every row (or every column), while the guarded crop leaves the grid as it is.
   */
  lemma CropGuards<T>(g: Grid<T>)
    requires g.Valid()
    ensures RemovePadding(g, 0, 0) == g
    ensures g.height > 0 ==> DropRows(g, 0) != g
    ensures g.width > 0 ==> DropColumns(g, 0) != g
  {
  }

  /** Cropping with the pads used for padding gives back the original grid. */
  lemma CropUndoesPad<T>(g: Grid<T>, padH: nat, padW: nat, zero: T)
    requires g.Valid()
    ensures RemovePadding(ZeroPad(g, padH, padW, zero), padH, padW) == g
  {
    var padded := ZeroPad(g, padH, padW, zero);
    var r := RemovePadding(padded, padH, padW);
    forall i: nat, j: nat | i < r.height && j < r.width
      ensures r.At(i, j) == g.At(i, j)
    {
      assert r.At(i, j) == padded.At(i, j);
    }
    GridExt(r, g);
  }

  // ---------------------------------------------------------------------------------------
  // Tiles

  /** The `p` by `p` tile in block row `ti`, block column `tj`: `g[ti*p:(ti+1)*p, tj*p:(tj+1)*p]`. */
  function Tile<T>(g: Grid<T>, p: nat, ti: nat, tj: nat): (t: Grid<T>)
    requires g.Valid() && p > 0
    requires ti * p + p <= g.height && tj * p + p <= g.width
    ensures t.Valid() && t.height == p && t.width == p
    ensures forall a: nat, b: nat :: a < p && b < p ==> t.At(a, b) == g.At(ti * p + a, tj * p + b)
  {
    Grid(p, p, seq(p, a requires 0 <= a < p => g.cells[ti * p + a][tj * p .. tj * p + p]))
  }

  /** True when every cell of `blocks` is a valid `p` by `p` tile. */
  ghost predicate AllTiles<T>(blocks: Grid<Grid<T>>, p: nat)
    requires blocks.Valid()
  {
    forall ti: nat, tj: nat :: ti < blocks.height && tj < blocks.width ==>
      blocks.At(ti, tj).Valid() && blocks.At(ti, tj).height == p && blocks.At(ti, tj).width == p
  }

  /** Cell `(a, b)` of tile `(ti, tj)` is cell `(ti * p + a, tj * p + b)` of `g`. */
  ghost predicate TileCell<T>(g: Grid<T>, blocks: Grid<Grid<T>>, p: nat, ti: nat, tj: nat, a: nat, b: nat)
    requires g.Valid() && blocks.Valid() && AllTiles(blocks, p)
    requires ti < blocks.height && tj < blocks.width && a < p && b < p
  {
    ti * p + a < g.height && tj * p + b < g.width && blocks.At(ti, tj).At(a, b) == g.At(ti * p + a, tj * p + b)
  }

  /** `blocks` are non-overlapping `p` by `p` tiles of `g`, tile `(ti, tj)` starting at row `ti * p`, column `tj * p`. */
  ghost predicate TiledBy<T>(g: Grid<T>, blocks: Grid<Grid<T>>, p: nat)
    requires g.Valid() && blocks.Valid()
  {
    && AllTiles(blocks, p)
    && forall ti: nat, tj: nat, a: nat, b: nat ::
         ti < blocks.height && tj < blocks.width && a < p && b < p ==> TileCell(g, blocks, p, ti, tj, a, b)
  }

  /**
   * `patchify(g, (p, p), step=p)`: the non-overlapping `p` by `p` tiles of `g`, arranged as a
   * grid of `g.height / p` by `g.width / p` blocks. Rows and columns past the last whole tile
   * are in no tile.
   */
  function Patchify<T>(g: Grid<T>, p: nat): (blocks: Grid<Grid<T>>)
    requires g.Valid() && p > 0
    ensures blocks.Valid() && blocks.height == g.height / p && blocks.width == g.width / p
    ensures TiledBy(g, blocks, p)
  {
    var nh, nw := g.height / p, g.width / p;
    var blocks := Grid(nh, nw, seq(nh, ti requires 0 <= ti < nh =>
      seq(nw, tj requires 0 <= tj < nw => (TileFits(ti, g.height, p); TileFits(tj, g.width, p); Tile(g, p, ti, tj)))));
    forall ti: nat, tj: nat | ti < nh && tj < nw
      ensures ti * p + p <= g.height && tj * p + p <= g.width
      ensures blocks.At(ti, tj) == Tile(g, p, ti, tj)
    {
      TileFits(ti, g.height, p);
      TileFits(tj, g.width, p);
    }
    forall ti: nat, tj: nat, a: nat, b: nat | ti < nh && tj < nw && a < p && b < p
      ensures TileCell(g, blocks, p, ti, tj, a, b)
    {
      TileFits(ti, g.height, p);
      TileFits(tj, g.width, p);
      assert blocks.At(ti, tj) == Tile(g, p, ti, tj);
    }
    blocks
  }

  // ---------------------------------------------------------------------------------------
  // Row-major order, by concatenation

  /** The lists of `rows` one after another. */
  function Concat<U>(rows: seq<seq<U>>): seq<U>
    decreases |rows|
  {
    if |rows| == 0 then [] else rows[0] + Concat(rows[1..])
  }

  /** Every list in `rows` has length `w`. */
  ghost predicate Uniform<U>(rows: seq<seq<U>>, w: nat) {
    forall r :: 0 <= r < |rows| ==> |rows[r]| == w
  }

  /** `|rows|` lists of length `w` concatenate to `|rows| * w` items. */
  lemma {:induction false} ConcatLength<U>(rows: seq<seq<U>>, w: nat)
    requires Uniform(rows, w)
    ensures |Concat(rows)| == |rows| * w
  {
    if |rows| > 0 {
      ConcatLength(rows[1..], w);
      assert |rows| * w == w + (|rows| - 1) * w;
    }
  }

  /** Item `c` of list `r` sits at position `r * w + c` of `s`. */
  ghost predicate ListedAt<U>(rows: seq<seq<U>>, w: nat, s: seq<U>, r: nat, c: nat)
    requires r < |rows| && c < |rows[r]|
  {
    r * w + c < |s| && s[r * w + c] == rows[r][c]
  }

  /** Item `c` of list `r` sits at position `r * w + c` of the concatenation. */
  lemma {:induction false} ConcatAt<U>(rows: seq<seq<U>>, w: nat, r: nat, c: nat)
    requires Uniform(rows, w)
    requires r < |rows| && c < w
    ensures ListedAt(rows, w, Concat(rows), r, c)
  {
    ConcatLength(rows, w);
    RowMajorIndexBound(r, c, |rows|, w);
    if r > 0 {
      ConcatAt(rows[1..], w, r - 1, c);
      assert r * w + c == w + ((r - 1) * w + c);
    }
  }

  /** Every item of a concatenation comes from one of the lists. */
  lemma {:induction false} ConcatMember<U>(rows: seq<seq<U>>, x: U)
    requires x in Concat(rows)
    ensures exists r :: 0 <= r < |rows| && x in rows[r]
  {
    if x !in rows[0] {
      ConcatMember(rows[1..], x);
      var r :| 0 <= r < |rows[1..]| && x in rows[1..][r];
      assert x in rows[r + 1];
    }
  }

  /** The rows of `s` each `nw` long: `s[r*nw:(r+1)*nw]` for `r` below `nh`. */
  function Slices<U>(s: seq<U>, nh: nat, nw: nat): (rows: seq<seq<U>>)
    requires |s| == nh * nw
    ensures |rows| == nh && Uniform(rows, nw)
    decreases nh
  {
    if nh == 0 then []
    else
      assert nh * nw == nw + (nh - 1) * nw;
      [s[..nw]] + Slices(s[nw..], nh - 1, nw)
  }

  /** Concatenating the slices of a list gives the list back. */
  lemma {:induction false} ConcatSlices<U>(s: seq<U>, nh: nat, nw: nat)
    requires |s| == nh * nw
    ensures Concat(Slices(s, nh, nw)) == s
    decreases nh
  {
    if nh > 0 {
      assert nh * nw == nw + (nh - 1) * nw;
      ConcatSlices(s[nw..], nh - 1, nw);
      var rows := Slices(s, nh, nw);
      assert rows[1..] == Slices(s[nw..], nh - 1, nw);
      assert s == s[..nw] + s[nw..];
    }
  }

  /** `blocks.reshape(-1, ...)`: the cells of a grid as one list, row by row. */
  function Flatten<U>(blocks: Grid<U>): (s: seq<U>)
    requires blocks.Valid()
    ensures |s| == blocks.height * blocks.width
    ensures forall r: nat, c: nat :: r < blocks.height && c < blocks.width ==> ListedAt(blocks.cells, blocks.width, s, r, c)
  {
    var s := Concat(blocks.cells);
    ConcatLength(blocks.cells, blocks.width);
    forall r: nat, c: nat | r < blocks.height && c < blocks.width
      ensures ListedAt(blocks.cells, blocks.width, s, r, c)
    {
      ConcatAt(blocks.cells, blocks.width, r, c);
    }
    s
  }

  /** `s.reshape(nh, nw, ...)`: a list of `nh * nw` items laid out as `nh` rows of `nw`. */
  function Reshape<U>(s: seq<U>, nh: nat, nw: nat): (g: Grid<U>)
    requires |s| == nh * nw
    ensures g.Valid() && g.height == nh && g.width == nw
    ensures Flatten(g) == s
    ensures forall r: nat, c: nat :: r < nh && c < nw ==> g.At(r, c) in s
  {
    ConcatSlices(s, nh, nw);
    var g := Grid(nh, nw, Slices(s, nh, nw));
    forall r: nat, c: nat | r < nh && c < nw
      ensures g.At(r, c) in s
    {
      assert ListedAt(g.cells, nw, Flatten(g), r, c);
    }
    g
  }

  /** Reshaping a flattened grid to its own shape gives the grid back. */
  lemma ReshapeFlatten<U>(blocks: Grid<U>)
    requires blocks.Valid()
    ensures Reshape(Flatten(blocks), blocks.height, blocks.width) == blocks
  {
    var s := Flatten(blocks);
    var g := Reshape(s, blocks.height, blocks.width);
    forall r: nat, c: nat | r < blocks.height && c < blocks.width
      ensures g.At(r, c) == blocks.At(r, c)
    {
      assert ListedAt(blocks.cells, blocks.width, s, r, c);
      assert ListedAt(g.cells, g.width, s, r, c);
    }
    GridExt(g, blocks);
  }

  // ---------------------------------------------------------------------------------------
  // Untiling

  /** The `a`-th rows of the tiles in block row `ti`, left to right. */
  function StripPieces<T>(blocks: Grid<Grid<T>>, p: nat, ti: nat, a: nat): (pieces: seq<seq<T>>)
    requires blocks.Valid() && AllTiles(blocks, p)
    requires ti < blocks.height && a < p
    ensures |pieces| == blocks.width && Uniform(pieces, p)
    ensures forall tj: nat, b: nat :: tj < blocks.width && b < p ==> pieces[tj][b] == blocks.At(ti, tj).At(a, b)
  {
    seq(blocks.width, tj requires 0 <= tj < blocks.width => blocks.At(ti, tj).cells[a])
  }

  /** Row `a` of block row `ti`: the `a`-th rows of its tiles joined side by side. */
  function StripRow<T>(blocks: Grid<Grid<T>>, p: nat, ti: nat, a: nat): (row: seq<T>)
    requires blocks.Valid() && AllTiles(blocks, p)
    requires ti < blocks.height && a < p
    ensures |row| == blocks.width * p
  {
    ConcatLength(StripPieces(blocks, p, ti, a), p);
    Concat(StripPieces(blocks, p, ti, a))
  }

  /** The `p` rows of block row `ti`. */
  function Strip<T>(blocks: Grid<Grid<T>>, p: nat, ti: nat): (rows: seq<seq<T>>)
    requires blocks.Valid() && AllTiles(blocks, p)
    requires ti < blocks.height
    ensures |rows| == p && Uniform(rows, blocks.width * p)
  {
    seq(p, a requires 0 <= a < p => StripRow(blocks, p, ti, a))
  }

  /** The block rows of `blocks`, top to bottom. */
  function Strips<T>(blocks: Grid<Grid<T>>, p: nat): (strips: seq<seq<seq<T>>>)
    requires blocks.Valid() && AllTiles(blocks, p)
    ensures |strips| == blocks.height && Uniform(strips, p)
    ensures forall ti :: 0 <= ti < blocks.height ==> strips[ti] == Strip(blocks, p, ti)
  {
    seq(blocks.height, ti requires 0 <= ti < blocks.height => Strip(blocks, p, ti))
  }

  /**
   * `unpatchify(blocks, (h, w))` for non-overlapping `p` by `p` tiles: the block rows stacked
   * top to bottom, each the side-by-side join of its tiles, so that tile `(ti, tj)` covers rows
   * `ti*p ..` and columns `tj*p ..` of the result.
   */
  function Unpatchify<T>(blocks: Grid<Grid<T>>, h: nat, w: nat, p: nat): (g: Grid<T>)
    requires blocks.Valid() && p > 0 && AllTiles(blocks, p)
    requires h == blocks.height * p && w == blocks.width * p
    ensures g.Valid() && g.height == h && g.width == w
    ensures TiledBy(g, blocks, p)
  {
    var strips := Strips(blocks, p);
    var rows := Concat(strips);
    ConcatLength(strips, p);
    forall i | 0 <= i < |rows|
      ensures |rows[i]| == w
    {
      ConcatMember(strips, rows[i]);
    }
    var g := Grid(h, w, rows);
    forall ti: nat, tj: nat, a: nat, b: nat | ti < blocks.height && tj < blocks.width && a < p && b < p
      ensures TileCell(g, blocks, p, ti, tj, a, b)
    {
      UnpatchifyCell(blocks, p, strips, g, ti, tj, a, b);
    }
    g
  }

  /** One cell of `Unpatchify`. */
  lemma UnpatchifyCell<T>(blocks: Grid<Grid<T>>, p: nat, strips: seq<seq<seq<T>>>, g: Grid<T>,
                          ti: nat, tj: nat, a: nat, b: nat)
    requires blocks.Valid() && p > 0 && AllTiles(blocks, p)
    requires strips == Strips(blocks, p)
    requires g.Valid() && g.cells == Concat(strips)
    requires g.height == blocks.height * p && g.width == blocks.width * p
    requires ti < blocks.height && tj < blocks.width && a < p && b < p
    ensures TileCell(g, blocks, p, ti, tj, a, b)
  {
    ConcatAt(strips, p, ti, a);
    assert g.cells[ti * p + a] == StripRow(blocks, p, ti, a);
    var pieces := StripPieces(blocks, p, ti, a);
    ConcatAt(pieces, p, tj, b);
    assert StripRow(blocks, p, ti, a)[tj * p + b] == pieces[tj][b];
  }

  /** Cell `(ti * p + a, tj * p + b)` of a tiled grid is cell `(a, b)` of tile `(ti, tj)`. */
  lemma TileCellAt<T>(g: Grid<T>, blocks: Grid<Grid<T>>, p: nat, ti: nat, tj: nat, a: nat, b: nat, i: nat, j: nat)
    requires g.Valid() && blocks.Valid() && TiledBy(g, blocks, p)
    requires ti < blocks.height && tj < blocks.width && a < p && b < p
    requires i == ti * p + a && j == tj * p + b
    ensures i < g.height && j < g.width
    ensures blocks.At(ti, tj).At(a, b) == g.At(i, j)
  {
    assert TileCell(g, blocks, p, ti, tj, a, b);
  }

  /** Cell `(i, j)` of an untiled grid is cell `(i % p, j % p)` of tile `(i / p, j / p)`. */
  lemma UnpatchifyAt<T>(blocks: Grid<Grid<T>>, p: nat, i: nat, j: nat)
    requires blocks.Valid() && p > 0 && AllTiles(blocks, p)
    requires i < blocks.height * p && j < blocks.width * p
    ensures i / p < blocks.height && j / p < blocks.width && i % p < p && j % p < p
    ensures Unpatchify(blocks, blocks.height * p, blocks.width * p, p).At(i, j) == blocks.At(i / p, j / p).At(i % p, j % p)
  {
    BlockOf(i, blocks.height, p);
    BlockOf(j, blocks.width, p);
    TileCellAt(Unpatchify(blocks, blocks.height * p, blocks.width * p, p), blocks, p, i / p, j / p, i % p, j % p, i, j);
  }

  /** Tiling and then untiling gives back the grid: `unpatchify` inverts `patchify` with `step == p`. */
  lemma UntileTile<T>(g: Grid<T>, p: nat)
    requires g.Valid() && p > 0
    requires g.height % p == 0 && g.width % p == 0
    ensures (DivExact(g.height, p); DivExact(g.width, p);
             Unpatchify(Patchify(g, p), g.height, g.width, p) == g)
  {
    DivExact(g.height, p);
    DivExact(g.width, p);
    var blocks := Patchify(g, p);
    var u := Unpatchify(blocks, g.height, g.width, p);
    forall i: nat, j: nat | i < g.height && j < g.width
      ensures u.At(i, j) == g.At(i, j)
    {
      SameTilesSameCell(g, u, blocks, p, i, j);
    }
    GridExt(u, g);
  }

  /** Two grids tiled by the same tiles, each covering whole tiles only, agree on cell `(i, j)`. */
  lemma SameTilesSameCell<T>(g: Grid<T>, u: Grid<T>, blocks: Grid<Grid<T>>, p: nat, i: nat, j: nat)
    requires g.Valid() && u.Valid() && blocks.Valid() && p > 0
    requires TiledBy(g, blocks, p) && TiledBy(u, blocks, p)
    requires g.height == blocks.height * p && g.width == blocks.width * p
    requires u.height == g.height && u.width == g.width
    requires i < g.height && j < g.width
    ensures u.At(i, j) == g.At(i, j)
  {
    BlockOf(i, blocks.height, p);
    BlockOf(j, blocks.width, p);
    TileCellAt(g, blocks, p, i / p, j / p, i % p, j % p, i, j);
    TileCellAt(u, blocks, p, i / p, j / p, i % p, j % p, i, j);
  }
}
