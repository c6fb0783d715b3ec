/**
 * Facts about Euclidean division on naturals that the tiling arithmetic needs:
 * row-major tile indices and the positions of cells inside tiles.
 */
module DivMod {

  /** Division is unique: `q * n + r` with `r < n` has quotient `q` and remainder `r`. */
  lemma DivModOf(q: nat, r: nat, n: nat)
    requires r < n
    ensures (q * n + r) / n == q
    ensures (q * n + r) % n == r
  {
    var x := q * n + r;
    var q', r' := x / n, x % n;
    assert x == q' * n + r';
    assert (q' - q) * n == r - r';
    assert (q - q') * n == r' - r;
    AtLeastOneTimes(q' - q, n);
    AtLeastOneTimes(q - q', n);
  }

  /** A positive multiple of `n` is at least `n`. */
  lemma AtLeastOneTimes(a: int, n: nat)
    ensures a >= 1 ==> a * n >= n
  {
    if a >= 1 {
      MulMonotone(1, a, n);
    }
  }

  /** Multiplication by a natural is monotone. */
  lemma MulMonotone(a: nat, b: nat, n: nat)
    requires a <= b
    ensures a * n <= b * n
  {
    assert b * n == a * n + (b - a) * n;
  }

  /** A row-major index below `nh * nw` splits into a row below `nh` and a column below `nw`. */
  lemma RowMajorBounds(k: nat, nh: nat, nw: nat)
    requires k < nh * nw
    ensures nw > 0
    ensures k / nw < nh
    ensures k % nw < nw
  {
  }

  /** A tile index below `n / p` leaves room for a whole tile of side `p` inside `n`. */
  lemma TileFits(t: nat, n: nat, p: nat)
    requires p > 0
    requires t < n / p
    ensures t * p + p <= n
  {
    MulMonotone(t + 1, n / p, p);
    assert n == (n / p) * p + n % p;
  }

  /** The block `i / p` and offset `i % p` of a position below `n`, a multiple of `p`, lie inside the grid of blocks. */
  lemma BlockBounds(i: nat, n: nat, p: nat)
    requires p > 0
    requires n % p == 0
    requires i < n
    ensures i / p < n / p
    ensures i % p < p
  {
  }

  /** A position below `nb * p` lies in a block below `nb`, at an offset below `p`. */
  lemma BlockOf(i: nat, nb: nat, p: nat)
    requires p > 0
    requires i < nb * p
    ensures i / p < nb
    ensures i % p < p
    ensures i == (i / p) * p + i % p
  {
    DivModOf(nb, 0, p);
    BlockBounds(i, nb * p, p);
  }

  /** Row `r` below `nh` and column `c` below `nw` have a row-major index below `nh * nw`. */
  lemma RowMajorIndexBound(r: nat, c: nat, nh: nat, nw: nat)
    requires r < nh && c < nw
    ensures r * nw + c < nh * nw
  {
    MulMonotone(r + 1, nh, nw);
  }

  /** A multiple of `p` is `p` times its quotient. */
  lemma DivExact(n: nat, p: nat)
    requires p > 0 && n % p == 0
    ensures n == (n / p) * p
  {
  }
}
