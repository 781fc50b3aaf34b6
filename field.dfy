/** The temperature field of both scripts: a 1D buffer of `nodes` values or a
    square 2D buffer of `nodes x nodes` values (row-major). A copy of a buffer
    (`u.copy()`) is its value: `u[..]` in 1D, `Rows(u)` in 2D. */
module Field {

  /** `g` is an `n x n` grid of values. */
  predicate Square(g: seq<seq<real>>, n: int)
  {
    |g| == n && forall i :: 0 <= i < n ==> |g[i]| == n
  }

  /** `(i, j)` lies on the first or last row or column of an `n x n` grid. */
  predicate OnBoundary(n: int, i: int, j: int)
  {
    i == 0 || i == n - 1 || j == 0 || j == n - 1
  }

  /** `(i, j)` is one of the `(n - 2) x (n - 2)` interior cells. */
  predicate InInterior(n: int, i: int, j: int)
  {
    1 <= i < n - 1 && 1 <= j < n - 1
  }

  /** Every value of the 1D field `u` lies in `[lo, hi]`. */
  predicate Within1D(u: seq<real>, lo: real, hi: real)
  {
    forall i :: 0 <= i < |u| ==> lo <= u[i] <= hi
  }

  /** Every value of the 2D field `g` lies in `[lo, hi]`. */
  predicate Within2D(g: seq<seq<real>>, lo: real, hi: real)
  {
    forall i, j :: 0 <= i < |g| && 0 <= j < |g[i]| ==> lo <= g[i][j] <= hi
  }

  /** The 1D field `w` lies at or below `v` cell by cell. */
  predicate Below1D(w: seq<real>, v: seq<real>)
  {
    |w| == |v| && forall i :: 0 <= i < |w| ==> w[i] <= v[i]
  }

  lemma BelowTrans(u: seq<real>, v: seq<real>, w: seq<real>)
    requires Below1D(u, v) && Below1D(v, w)
    ensures Below1D(u, w)
  {
  }

  /** In a run of fields each lying at or below the next, every field lies
      at or below every later one. */
  lemma {:induction false} ChainBelow(s: seq<seq<real>>, j: int, m: int)
    requires forall i {:trigger s[i]} :: 0 <= i < |s| - 1 ==> Below1D(s[i], s[i + 1])
    requires 0 <= j <= m < |s|
    ensures Below1D(s[j], s[m])
    decreases m
  {
    if j < m {
      ChainBelow(s, j, m - 1);
      BelowTrans(s[j], s[m - 1], s[m]);
    } else {
      assert |s[j]| == |s[m]|;
    }
  }

  /** A field of `n` cells all holding `v` (`np.zeros(n) + v`). */
  function Fill1D(n: nat, v: real): (u: seq<real>)
    ensures |u| == n && forall i :: 0 <= i < n ==> u[i] == v
  {
    seq(n, i => v)
  }

  /** An `n x n` field all holding `v` (`np.zeros((n, n)) + v`). */
  function Fill2D(n: nat, v: real): (g: seq<seq<real>>)
    ensures Square(g, n)
    ensures forall i, j :: 0 <= i < n && 0 <= j < n ==> g[i][j] == v
  {
    seq(n, i => Fill1D(n, v))
  }

  /** Two grids of the same shape that agree cell by cell are equal. */
  lemma {:induction false} GridsEqual(g: seq<seq<real>>, h: seq<seq<real>>, n: int)
    requires Square(g, n) && Square(h, n)
    requires forall i, j :: 0 <= i < n && 0 <= j < n ==> g[i][j] == h[i][j]
    ensures g == h
  {
    forall i | 0 <= i < n
      ensures g[i] == h[i]
    {
      assert forall j :: 0 <= j < n ==> g[i][j] == h[i][j];
    }
  }

  /** The value of a 2D buffer as a grid: what `u.copy()` takes. */
  function Rows(u: array2<real>): (g: seq<seq<real>>)
    reads u
    ensures |g| == u.Length0
    ensures forall i :: 0 <= i < |g| ==> |g[i]| == u.Length1
    ensures forall i, j :: 0 <= i < u.Length0 && 0 <= j < u.Length1 ==> g[i][j] == u[i, j]
  {
    seq(u.Length0, i requires 0 <= i < u.Length0 reads u =>
      seq(u.Length1, j requires 0 <= j < u.Length1 reads u => u[i, j]))
  }
}
