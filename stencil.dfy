/** The explicit diffusion stencil shared by both scripts: the 3-point rule
    in 1D, the 5-point rule in 2D, the mesh ratio `r = dt * a / dx^2`, the
    stability bounds on `dt` and the common time step `dt_common`. Field
    values are exact reals; the scripts compute in IEEE doubles. */
module Stencil {
  import opened Field

  /** Grid spacing `dx = length / nodes`. */
  function Dx(length: real, nodes: int): (dx: real)
    requires length > 0.0 && nodes > 0
    ensures dx > 0.0 && dx * nodes as real == length
  {
    length / nodes as real
  }

  /** A product of two positive reals is positive. */
  function Times(p: real, q: real): (t: real)
    requires p > 0.0 && q > 0.0
    ensures t > 0.0
  {
    p * q
  }

  /** `x**2` for a positive `x`, such as the spacing in `dx**2`. */
  function Sq(x: real): (s: real)
    requires x > 0.0
    ensures s > 0.0
  {
    Times(x, x)
  }

  /** Mesh ratio `r = dt * a / dx^2`, the weight of each neighbour. */
  function Ratio(dt: real, a: real, dx: real): real
    requires dx > 0.0
  {
    dt * a / Sq(dx)
  }

  /** The 1D time step is stable: `0 <= r <= 1/2`. */
  predicate Stable1D(dt: real, a: real, dx: real)
    requires dx > 0.0
  {
    0.0 <= Ratio(dt, a, dx) <= 0.5
  }

  /** The 2D time step is stable: `0 <= r <= 1/4`. */
  predicate Stable2D(dt: real, a: real, dx: real)
    requires dx > 0.0
  {
    0.0 <= Ratio(dt, a, dx) <= 0.25
  }

  // ---------------------------------------------------------------------------
  // 1D: 3-point rule
  // ---------------------------------------------------------------------------

  /** New value of interior cell `i`, read from the pre-step copy `w` only. */
  function Point1D(w: seq<real>, i: int, dt: real, a: real, dx: real): real
    requires 1 <= i < |w| - 1 && dx > 0.0
  {
    dt * a * (w[i - 1] - 2.0 * w[i] + w[i + 1]) / Sq(dx) + w[i]
  }

  /** The field after `u[1:-1] = ...` with `w` the pre-step copy: every
      interior cell takes the 3-point value computed from `w`, the two
      boundary cells keep their value. */
  function Interior1D(w: seq<real>, dt: real, a: real, dx: real): (u: seq<real>)
    requires |w| >= 3 && dx > 0.0
    ensures |u| == |w|
    ensures u[0] == w[0] && u[|w| - 1] == w[|w| - 1]
    ensures forall i {:trigger u[i]} :: 1 <= i < |w| - 1 ==> u[i] == Point1D(w, i, dt, a, dx)
  {
    seq(|w|, i requires 0 <= i < |w| =>
      if 1 <= i < |w| - 1 then Point1D(w, i, dt, a, dx) else w[i])
  }

  /** The 3-point value is the old value plus `r` times the discrete
      second difference `w[i-1] - 2 w[i] + w[i+1]`. */
  lemma Point1DWeights(w: seq<real>, i: int, dt: real, a: real, dx: real)
    requires 1 <= i < |w| - 1 && dx > 0.0
    ensures Point1D(w, i, dt, a, dx) == w[i] + Ratio(dt, a, dx) * (w[i - 1] - 2.0 * w[i] + w[i + 1])
  {
    FactorRatio(dt * a, w[i - 1] - 2.0 * w[i] + w[i + 1], Sq(dx));
  }

  /** `c * x / d == (c / d) * x`: the mesh ratio can be factored out. */
  lemma FactorRatio(c: real, x: real, d: real)
    requires d > 0.0
    ensures c * x / d == (c / d) * x
  {
  }

  lemma ScaleMono(c: real, x: real, y: real)
    requires 0.0 <= c && x <= y
    ensures c * x <= c * y
  {
    assert c * y - c * x == c * (y - x);
  }

  lemma MulNonneg(p: real, q: real)
    requires p >= 0.0 && q >= 0.0
    ensures p * q >= 0.0
  {
  }

  /** A value `c` in `[lo, hi]` moved by `r * t`, where `t` is a sum of
      `m` differences `x - c` of values `x` in `[lo, hi]` and `0 <= m r <= 1`,
      stays in `[lo, hi]`: the move is a convex step towards the neighbours. */
  lemma Blend(c: real, t: real, r: real, m: real, lo: real, hi: real)
    requires m > 0.0 && 0.0 <= r && m * r <= 1.0
    requires lo <= c <= hi
    requires m * (lo - c) <= t <= m * (hi - c)
    ensures lo <= c + r * t <= hi
  {
    ScaleMono(r, m * (lo - c), t);
    ScaleMono(r, t, m * (hi - c));
    MulNonneg(1.0 - m * r, c - lo);
    MulNonneg(1.0 - m * r, hi - c);
    assert r * (m * (lo - c)) == (m * r) * (lo - c);
    assert r * (m * (hi - c)) == (m * r) * (hi - c);
  }

  /** Discrete maximum principle for one 1D cell: with `0 <= r <= 1/2` the new
      value lies between the smallest and largest value of the pre-step copy. */
  lemma Point1DBounded(w: seq<real>, i: int, dt: real, a: real, dx: real, lo: real, hi: real)
    requires 1 <= i < |w| - 1 && dx > 0.0
    requires Stable1D(dt, a, dx)
    requires Within1D(w, lo, hi)
    ensures lo <= Point1D(w, i, dt, a, dx) <= hi
  {
    Point1DWeights(w, i, dt, a, dx);
    Blend(w[i], w[i - 1] - 2.0 * w[i] + w[i + 1], Ratio(dt, a, dx), 2.0, lo, hi);
  }

  /** The whole 1D interior update keeps every value within `[lo, hi]`. */
  lemma Interior1DBounded(w: seq<real>, dt: real, a: real, dx: real, lo: real, hi: real)
    requires |w| >= 3 && dx > 0.0
    requires Stable1D(dt, a, dx)
    requires Within1D(w, lo, hi)
    ensures Within1D(Interior1D(w, dt, a, dx), lo, hi)
  {
    forall k | 1 <= k < |w| - 1
      ensures lo <= Interior1D(w, dt, a, dx)[k] <= hi
    {
      Point1DBounded(w, k, dt, a, dx, lo, hi);
    }
  }

  /** The 3-point value is monotone in the pre-step copy when `r` is stable:
      it is `(1 - 2r) w[i] + r w[i-1] + r w[i+1]`, all three weights being
      non-negative. */
  lemma Point1DMono(w: seq<real>, v: seq<real>, i: int, dt: real, a: real, dx: real)
    requires 1 <= i < |w| - 1 && dx > 0.0
    requires Stable1D(dt, a, dx)
    requires Below1D(w, v)
    ensures Point1D(w, i, dt, a, dx) <= Point1D(v, i, dt, a, dx)
  {
    var r := Ratio(dt, a, dx);
    Point1DWeights(w, i, dt, a, dx);
    Point1DWeights(v, i, dt, a, dx);
    ScaleMono(1.0 - 2.0 * r, w[i], v[i]);
    ScaleMono(r, w[i - 1], v[i - 1]);
    ScaleMono(r, w[i + 1], v[i + 1]);
    assert Point1D(w, i, dt, a, dx) == (1.0 - 2.0 * r) * w[i] + r * w[i - 1] + r * w[i + 1];
    assert Point1D(v, i, dt, a, dx) == (1.0 - 2.0 * r) * v[i] + r * v[i - 1] + r * v[i + 1];
    assert (1.0 - 2.0 * r) * w[i] <= (1.0 - 2.0 * r) * v[i];
    assert r * w[i - 1] + r * w[i + 1] <= r * v[i - 1] + r * v[i + 1];
  }

  /** The whole 1D update preserves order: a rod lying at or below another
      cell by cell still does after one step. */
  lemma Interior1DMono(w: seq<real>, v: seq<real>, dt: real, a: real, dx: real)
    requires |w| >= 3 && dx > 0.0
    requires Stable1D(dt, a, dx)
    requires Below1D(w, v)
    ensures Below1D(Interior1D(w, dt, a, dx), Interior1D(v, dt, a, dx))
  {
    forall k | 1 <= k < |w| - 1
      ensures Interior1D(w, dt, a, dx)[k] <= Interior1D(v, dt, a, dx)[k]
    {
      Point1DMono(w, v, k, dt, a, dx);
    }
  }

  // ---------------------------------------------------------------------------
  // 2D: 5-point rule
  // ---------------------------------------------------------------------------

  /** New value of interior cell `(i, j)`, read from the pre-step copy `w` only. */
  function Point2D(w: seq<seq<real>>, i: int, j: int, dt: real, a: real, dx: real): real
    requires Square(w, |w|) && InInterior(|w|, i, j) && dx > 0.0
  {
    dt * a * ((w[i - 1][j] - 2.0 * w[i][j] + w[i + 1][j]) / Sq(dx)
            + (w[i][j - 1] - 2.0 * w[i][j] + w[i][j + 1]) / Sq(dx)) + w[i][j]
  }

  /** The field after `u[1:-1, 1:-1] = ...` with `w` the pre-step copy: every
      interior cell takes the 5-point value computed from `w`, every boundary
      cell keeps its value. */
  function Interior2D(w: seq<seq<real>>, dt: real, a: real, dx: real): (u: seq<seq<real>>)
    requires |w| >= 3 && Square(w, |w|) && dx > 0.0
    ensures Square(u, |w|)
    ensures forall i, j {:trigger u[i][j]} :: 0 <= i < |w| && 0 <= j < |w| && OnBoundary(|w|, i, j) ==> u[i][j] == w[i][j]
    ensures forall i, j {:trigger u[i][j]} :: InInterior(|w|, i, j) ==> u[i][j] == Point2D(w, i, j, dt, a, dx)
  {
    seq(|w|, i requires 0 <= i < |w| =>
      seq(|w|, j requires 0 <= j < |w| =>
        if InInterior(|w|, i, j) then Point2D(w, i, j, dt, a, dx) else w[i][j]))
  }

  /** The 5-point value is the old value plus `r` times the sum of the two
      second differences, along the rows and along the columns. */
  lemma Point2DWeights(w: seq<seq<real>>, i: int, j: int, dt: real, a: real, dx: real)
    requires Square(w, |w|) && InInterior(|w|, i, j) && dx > 0.0
    ensures Point2D(w, i, j, dt, a, dx) == w[i][j] + Ratio(dt, a, dx) *
      ((w[i - 1][j] - 2.0 * w[i][j] + w[i + 1][j]) + (w[i][j - 1] - 2.0 * w[i][j] + w[i][j + 1]))
  {
    var d := Sq(dx);
    var x := w[i - 1][j] - 2.0 * w[i][j] + w[i + 1][j];
    var y := w[i][j - 1] - 2.0 * w[i][j] + w[i][j + 1];
    assert dt * a * (x / d + y / d) == dt * a * (x + y) / d;
    FactorRatio(dt * a, x + y, d);
  }

  /** Discrete maximum principle for one 2D cell: with `0 <= r <= 1/4` the new
      value lies between the smallest and largest value of the pre-step copy. */
  lemma Point2DBounded(w: seq<seq<real>>, i: int, j: int, dt: real, a: real, dx: real, lo: real, hi: real)
    requires Square(w, |w|) && InInterior(|w|, i, j) && dx > 0.0
    requires Stable2D(dt, a, dx)
    requires Within2D(w, lo, hi)
    ensures lo <= Point2D(w, i, j, dt, a, dx) <= hi
  {
    Point2DWeights(w, i, j, dt, a, dx);
    Blend(w[i][j], (w[i - 1][j] - 2.0 * w[i][j] + w[i + 1][j]) + (w[i][j - 1] - 2.0 * w[i][j] + w[i][j + 1]),
      Ratio(dt, a, dx), 4.0, lo, hi);
  }

  /** The whole 2D interior update keeps every value within `[lo, hi]`. */
  lemma Interior2DBounded(w: seq<seq<real>>, dt: real, a: real, dx: real, lo: real, hi: real)
    requires |w| >= 3 && Square(w, |w|) && dx > 0.0
    requires Stable2D(dt, a, dx)
    requires Within2D(w, lo, hi)
    ensures Within2D(Interior2D(w, dt, a, dx), lo, hi)
  {
    forall p, q | InInterior(|w|, p, q)
      ensures lo <= Interior2D(w, dt, a, dx)[p][q] <= hi
    {
      Point2DBounded(w, p, q, dt, a, dx, lo, hi);
    }
  }

  // ---------------------------------------------------------------------------
  // The shared time step
  // ---------------------------------------------------------------------------

  function Min(x: real, y: real): real
  {
    if x <= y then x else y
  }

  /** `dt_common = min(0.5 * dx**2 / a, dx**2 / (4 * a))`: it is the 2D bound
      `dx^2 / (4a)`, it lies at or below both the 1D and the 2D bound, is
      positive, and gives the mesh ratio `r = 1/4`. */
  function DtCommon(a: real, length: real, nodes: int): (dt: real)
    requires a > 0.0 && length > 0.0 && nodes > 0
    ensures dt > 0.0
    ensures dt == Sq(Dx(length, nodes)) / (4.0 * a)
    ensures dt <= 0.5 * Sq(Dx(length, nodes)) / a
    ensures Ratio(dt, a, Dx(length, nodes)) == 0.25
    ensures Stable1D(dt, a, Dx(length, nodes)) && Stable2D(dt, a, Dx(length, nodes))
  {
    var d := Sq(Dx(length, nodes));
    Min(0.5 * d / a, d / (4.0 * a))
  }

  // ---------------------------------------------------------------------------
  // The in-place interior updates
  // ---------------------------------------------------------------------------

  /** One 1D stencil pass: `w = u.copy()`, then `u[1:-1] = ...` computed
      from `w` alone. */
  method UpdateInterior1D(u: array<real>, dt: real, a: real, dx: real)
    requires u.Length >= 3 && dx > 0.0
    modifies u
    ensures u[..] == Interior1D(old(u[..]), dt, a, dx)
  {
    var w := u[..];
    forall i | 1 <= i < u.Length - 1 {
      u[i] := Point1D(w, i, dt, a, dx);
    }
    assert forall i :: 0 <= i < u.Length ==> u[i] == Interior1D(w, dt, a, dx)[i];
  }

  /** One 2D stencil pass: `w = u.copy()`, then `u[1:-1, 1:-1] = ...`
      computed from `w` alone. */
  method UpdateInterior2D(u: array2<real>, dt: real, a: real, dx: real)
    requires u.Length0 == u.Length1 >= 3 && dx > 0.0
    modifies u
    ensures Rows(u) == Interior2D(old(Rows(u)), dt, a, dx)
  {
    var n := u.Length0;
    var w := Rows(u);
    forall i, j | 1 <= i < n - 1 && 1 <= j < n - 1 {
      u[i, j] := Point2D(w, i, j, dt, a, dx);
    }
    forall i, j | 0 <= i < n && 0 <= j < n
      ensures Rows(u)[i][j] == Interior2D(w, dt, a, dx)[i][j]
    {
      if InInterior(n, i, j) {
        assert u[i, j] == Point2D(w, i, j, dt, a, dx);
      } else {
        assert u[i, j] == w[i][j];
      }
    }
    GridsEqual(Rows(u), Interior2D(w, dt, a, dx), n);
  }
}
