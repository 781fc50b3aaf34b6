/** `simulate_1d_neumann_forcing` and `simulate_2d_neumann_forcing` of
    heatEquation1Dn2D_3.py: a plate at 10 degrees; each step rewrites the
    interior by the explicit stencil, copies the neighbouring values onto
    the boundary (zero gradient: first the end rows, then the end columns in
    2D), adds the heat `Q * dt` at the centre cell `nodes // 2` and records a
    copy of the field. */
module Neumann {
  import opened Field
  import opened Stencil
  import Clock

  /** The value every cell starts from (`np.zeros(...) + 10`). */
  const Initial: real := 10.0

  /** The forced cell `nodes // 2`; an interior index for every `n >= 3`. */
  function Center(n: int): (c: int)
    requires n >= 3
    ensures 1 <= c < n - 1
    ensures 2 * c == n || 2 * c + 1 == n
  {
    n / 2
  }


  /** The time step of the script's own run (`a = 10`, `length = 50`,
      `nodes = 100`): `dt_common` is `1/160`, the mesh ratio is 1/4 and both
      stability bounds hold. */
  lemma MainTimeStep()
    ensures DtCommon(10.0, 50.0, 100) == 1.0 / 160.0
    ensures Ratio(DtCommon(10.0, 50.0, 100), 10.0, Dx(50.0, 100)) == 0.25
    ensures Stable1D(DtCommon(10.0, 50.0, 100), 10.0, Dx(50.0, 100)) && Stable2D(DtCommon(10.0, 50.0, 100), 10.0, Dx(50.0, 100))
  {
    assert Dx(50.0, 100) == 50.0 / 100.0;
  }

  // ---------------------------------------------------------------------------
  // 1D
  // ---------------------------------------------------------------------------

  /** The 1D field has zero gradient at both ends. */
  predicate ZeroGradient1D(u: seq<real>)
  {
    |u| >= 2 && u[0] == u[1] && u[|u| - 1] == u[|u| - 2]
  }

  /** `u[0] = u[1]; u[-1] = u[-2]`: both ends take the value next to them,
      so the field has zero gradient at both ends; the interior is kept. */
  function Edges1D(v: seq<real>): (u: seq<real>)
    requires |v| >= 3
    ensures |u| == |v|
    ensures u[0] == u[1] == v[1] && u[|v| - 1] == u[|v| - 2] == v[|v| - 2]
    ensures forall i {:trigger u[i]} :: 1 <= i < |v| - 1 ==> u[i] == v[i]
  {
    v[0 := v[1]][|v| - 1 := v[|v| - 2]]
  }

  /** `u[c] += q`: cell `c` gains `q`, every other cell is unchanged. */
  function Force1D(v: seq<real>, c: int, q: real): (u: seq<real>)
    requires 0 <= c < |v|
    ensures |u| == |v| && u[c] == v[c] + q
    ensures forall i {:trigger u[i]} :: 0 <= i < |v| && i != c ==> u[i] == v[i]
  {
    v[c := v[c] + q]
  }

  /** One iteration of the time loop on the pre-step copy `w`, with
      `q = Q * dt`: stencil on the interior, boundary copy, centre forcing. */
  function Step1D(w: seq<real>, dt: real, a: real, dx: real, q: real): (u: seq<real>)
    requires |w| >= 3 && dx > 0.0
    ensures |u| == |w|
  {
    Force1D(Edges1D(Interior1D(w, dt, a, dx)), Center(|w|), q)
  }

  /** Every interior cell holds its 3-point value computed from `w` alone,
      the centre cell that value plus `q`. */
  lemma Step1DInterior(w: seq<real>, dt: real, a: real, dx: real, q: real)
    requires |w| >= 3 && dx > 0.0
    ensures forall i :: 1 <= i < |w| - 1 && i != Center(|w|) ==>
      Step1D(w, dt, a, dx, q)[i] == Point1D(w, i, dt, a, dx)
    ensures Step1D(w, dt, a, dx, q)[Center(|w|)] == Point1D(w, Center(|w|), dt, a, dx) + q
  {
  }

  /** The ends of a recorded snapshot: with `nodes >= 5` the forcing is away
      from the cells the ends copy, so both ends keep zero gradient; with
      `nodes == 4` the centre is the cell the right end copied, which then
      lies `q` below it; with `nodes == 3` both ends copied the centre and
      lie `q` below it. */
  lemma Step1DEdges(w: seq<real>, dt: real, a: real, dx: real, q: real)
    requires |w| >= 3 && dx > 0.0
    ensures |w| >= 5 ==> ZeroGradient1D(Step1D(w, dt, a, dx, q))
    ensures |w| == 4 ==>
      Step1D(w, dt, a, dx, q)[0] == Step1D(w, dt, a, dx, q)[1] &&
      Step1D(w, dt, a, dx, q)[3] == Step1D(w, dt, a, dx, q)[2] - q
    ensures |w| == 3 ==>
      Step1D(w, dt, a, dx, q)[0] == Step1D(w, dt, a, dx, q)[1] - q &&
      Step1D(w, dt, a, dx, q)[2] == Step1D(w, dt, a, dx, q)[1] - q
  {
  }

  /** A uniform field stays uniform under the stencil, so the first step
      from it only raises the centre cell by `q`. */
  lemma Step1DUniform(n: nat, v: real, dt: real, a: real, dx: real, q: real)
    requires n >= 3 && dx > 0.0
    ensures Step1D(Fill1D(n, v), dt, a, dx, q) == Fill1D(n, v)[Center(n) := v + q]
  {
    var w := Fill1D(n, v);
    var s := Interior1D(w, dt, a, dx);
    forall i | 0 <= i < n
      ensures s[i] == w[i]
    {
      if 1 <= i < n - 1 {
        assert w[i - 1] - 2.0 * w[i] + w[i + 1] == 0.0;
      }
    }
    assert s == w;
    assert Edges1D(w) == w;
  }

  /** With a stable `dt` and `q >= 0` a step keeps every value at or above
      the lowest value of `w` and raises the highest by at most `q`: every
      value of the new field lies in `[lo, top]` when `w` lies in `[lo, hi]`
      and `hi + q <= top`. */
  lemma Step1DBounded(w: seq<real>, dt: real, a: real, dx: real, q: real, lo: real, hi: real, top: real)
    requires |w| >= 3 && dx > 0.0 && Stable1D(dt, a, dx) && q >= 0.0
    requires Within1D(w, lo, hi) && hi + q <= top
    ensures Within1D(Step1D(w, dt, a, dx, q), lo, top)
  {
    Interior1DBounded(w, dt, a, dx, lo, hi);
  }

  /** The 1D field before the loop: 10 everywhere. */
  function Init1D(n: nat): (u: seq<real>)
    ensures |u| == n && Within1D(u, Initial, Initial)
  {
    Fill1D(n, Initial)
  }

  /** The field after `k` iterations of the time loop. */
  function Evolve1D(u0: seq<real>, k: nat, dt: real, a: real, dx: real, q: real): (u: seq<real>)
    requires |u0| >= 3 && dx > 0.0
    ensures |u| == |u0|
    decreases k
  {
    if k == 0 then u0 else Step1D(Evolve1D(u0, k - 1, dt, a, dx, q), dt, a, dx, q)
  }

  /** With a stable `dt` and `q >= 0`, after `k` steps every value lies
      between the lowest starting value and the highest plus `k * q`.
      The heat added by `k` steps is written `Clock.Stamp(k, q)`, the sum of
      `k` increments `q`; `Clock.StampIsProduct` shows it equals `k * q`. */
  lemma {:induction false} Evolve1DBounded(u0: seq<real>, k: nat, dt: real, a: real, dx: real, q: real, lo: real, hi: real)
    requires |u0| >= 3 && dx > 0.0 && Stable1D(dt, a, dx) && q >= 0.0
    requires Within1D(u0, lo, hi)
    ensures Within1D(Evolve1D(u0, k, dt, a, dx, q), lo, hi + Clock.Stamp(k, q))
  {
    if k > 0 {
      Evolve1DBounded(u0, k - 1, dt, a, dx, q, lo, hi);
      Step1DBounded(Evolve1D(u0, k - 1, dt, a, dx, q), dt, a, dx, q, lo, hi + Clock.Stamp(k - 1, q), hi + Clock.Stamp(k, q));
    }
  }

  /** The snapshots after iterations `1 .. k`, oldest first. */
  function Trace1D(u0: seq<real>, k: nat, dt: real, a: real, dx: real, q: real): (t: seq<seq<real>>)
    requires |u0| >= 3 && dx > 0.0
    ensures |t| == k
  {
    seq(k, m requires 0 <= m < k => Evolve1D(u0, m + 1, dt, a, dx, q))
  }

  /** One more iteration appends one snapshot. */
  lemma Trace1DSnoc(u0: seq<real>, k: nat, dt: real, a: real, dx: real, q: real)
    requires |u0| >= 3 && dx > 0.0
    ensures Trace1D(u0, k + 1, dt, a, dx, q) == Trace1D(u0, k, dt, a, dx, q) + [Evolve1D(u0, k + 1, dt, a, dx, q)]
  {
    var t, s := Trace1D(u0, k + 1, dt, a, dx, q), Trace1D(u0, k, dt, a, dx, q) + [Evolve1D(u0, k + 1, dt, a, dx, q)];
    forall m | 0 <= m < k + 1
      ensures t[m] == s[m]
    {
      if m < k {
        assert s[m] == Trace1D(u0, k, dt, a, dx, q)[m];
      }
    }
  }

  /** With `n >= 5`, after every iteration (so in every recorded snapshot)
      the field has zero gradient at its ends. */
  lemma Evolve1DEdges(n: nat, k: nat, dt: real, a: real, dx: real, q: real)
    requires n >= 5 && dx > 0.0 && k >= 1
    ensures ZeroGradient1D(Evolve1D(Init1D(n), k, dt, a, dx, q))
  {
    Step1DEdges(Evolve1D(Init1D(n), k - 1, dt, a, dx, q), dt, a, dx, q);
  }

  /** With a stable `dt` and `q >= 0` snapshot `m` lies within
      `[10, 10 + (m + 1) * q]`, the bound written `Clock.Stamp(m + 1, q)`
      (equal to `(m + 1) * q` by `Clock.StampIsProduct`). */
  lemma Trace1DBounded(n: nat, k: nat, dt: real, a: real, dx: real, q: real)
    requires n >= 3 && dx > 0.0 && Stable1D(dt, a, dx) && q >= 0.0
    ensures forall m :: 0 <= m < k ==>
      Within1D(Trace1D(Init1D(n), k, dt, a, dx, q)[m], Initial, Initial + Clock.Stamp(m + 1, q))
  {
    forall m | 0 <= m < k
      ensures Within1D(Trace1D(Init1D(n), k, dt, a, dx, q)[m], Initial, Initial + Clock.Stamp(m + 1, q))
    {
      Evolve1DBounded(Init1D(n), m + 1, dt, a, dx, q, Initial, Initial);
    }
  }

  /** `u[0] = u[1]; u[-1] = u[-2]` on the buffer. */
  method CopyEdges1D(u: array<real>)
    requires u.Length >= 3
    modifies u
    ensures u[..] == Edges1D(old(u[..]))
  {
    u[0] := u[1];
    u[u.Length - 1] := u[u.Length - 2];
  }

  /** `u[c] += q` on the buffer. */
  method AddAt1D(u: array<real>, c: int, q: real)
    requires 0 <= c < u.Length
    modifies u
    ensures u[..] == Force1D(old(u[..]), c, q)
  {
    u[c] := u[c] + q;
  }

  /** One iteration on the buffer: `w = u.copy()` and the interior update,
      the boundary copy, `u[center] += q`. */
  method StepInPlace1D(u: array<real>, dt: real, a: real, dx: real, q: real)
    requires u.Length >= 3 && dx > 0.0
    modifies u
    ensures u[..] == Step1D(old(u[..]), dt, a, dx, q)
  {
    UpdateInterior1D(u, dt, a, dx);
    CopyEdges1D(u);
    AddAt1D(u, Center(u.Length), q);
  }

  /** `simulate_1d_neumann_forcing(a, length, time, nodes, dt, Q)`: the loop
      runs `StepCount` times and `results` is the trace of that many steps
      from the rod at 10 with `q = Q * dt`; the time stamps are
      `arange(0, time, dt)`, as many as the snapshots. */
  method Simulate1D(a: real, length: real, time: real, nodes: int, dt: real, Q: real)
      returns (results: seq<seq<real>>, times: seq<real>)
    requires nodes >= 3 && length > 0.0 && dt > 0.0
    ensures |results| == Clock.StepCount(time, dt) && times == Clock.Arange(time, dt)
    ensures results == Trace1D(Init1D(nodes), |results|, dt, a, Dx(length, nodes), Q * dt)
  {
    var dx := Dx(length, nodes);
    var u := new real[nodes](i => Initial);
    ghost var u0 := Init1D(nodes);
    assert u[..] == u0;

    results := [];
    var counter := 0.0;
    ghost var k: nat := 0;
    while counter < time
      invariant counter == Clock.Stamp(k, dt)
      invariant k <= Clock.StepCount(time, dt)
      invariant u.Length == nodes && u[..] == Evolve1D(u0, k, dt, a, dx, Q * dt)
      invariant results == Trace1D(u0, k, dt, a, dx, Q * dt)
      decreases Clock.StepCount(time, dt) - k
    {
      Clock.BelowTime(time, dt, k);
      StepInPlace1D(u, dt, a, dx, Q * dt);
      Trace1DSnoc(u0, k, dt, a, dx, Q * dt);
      counter := counter + dt;
      results := results + [u[..]];
      k := k + 1;
    }
    Clock.BelowTime(time, dt, k);
    times := Clock.Arange(time, dt);
  }

  // ---------------------------------------------------------------------------
  // 2D
  // ---------------------------------------------------------------------------

  /** The `n x n` field has zero gradient across all four edges. */
  predicate ZeroGradient2D(g: seq<seq<real>>, n: int)
  {
    n >= 2 && Square(g, n) &&
    (forall j :: 0 <= j < n ==> g[0][j] == g[1][j] && g[n - 1][j] == g[n - 2][j]) &&
    (forall i :: 0 <= i < n ==> g[i][0] == g[i][1] && g[i][n - 1] == g[i][n - 2])
  }

  /** `u[0, :] = u[1, :]; u[-1, :] = u[-2, :]`: the first and last row take
      the row next to them; every other row is kept. */
  function RowPass(v: seq<seq<real>>): (u: seq<seq<real>>)
    requires |v| >= 3 && Square(v, |v|)
    ensures Square(u, |v|)
    ensures u[0] == v[1] && u[|v| - 1] == v[|v| - 2]
    ensures forall i {:trigger u[i]} :: 1 <= i < |v| - 1 ==> u[i] == v[i]
  {
    v[0 := v[1]][|v| - 1 := v[|v| - 2]]
  }

  /** `u[:, 0] = u[:, 1]; u[:, -1] = u[:, -2]`: in every row the first and
      last cell take the cell next to them; every other column is kept. */
  function ColPass(v: seq<seq<real>>): (u: seq<seq<real>>)
    requires |v| >= 3 && Square(v, |v|)
    ensures Square(u, |v|)
    ensures forall i {:trigger u[i]} :: 0 <= i < |v| ==>
      u[i][0] == v[i][1] && u[i][|v| - 1] == v[i][|v| - 2]
    ensures forall i, j {:trigger u[i][j]} :: 0 <= i < |v| && 1 <= j < |v| - 1 ==> u[i][j] == v[i][j]
  {
    seq(|v|, i requires 0 <= i < |v| => Edges1D(v[i]))
  }

  /** The interior index nearest to `i`: a boundary row or column reads
      from the row or column next to it. */
  function Nearest(n: int, i: int): (k: int)
    requires n >= 3 && 0 <= i < n
    ensures 1 <= k < n - 1
    ensures 1 <= i < n - 1 ==> k == i
  {
    if i == 0 then 1 else if i == n - 1 then n - 2 else i
  }

  /** The plate after the boundary copy of the 2D script: every cell holds
      the value of the nearest interior cell. */
  function Edges2D(v: seq<seq<real>>): (u: seq<seq<real>>)
    requires |v| >= 3 && Square(v, |v|)
    ensures Square(u, |v|)
  {
    seq(|v|, i requires 0 <= i < |v| =>
      seq(|v|, j requires 0 <= j < |v| => v[Nearest(|v|, i)][Nearest(|v|, j)]))
  }

  /** The row pass followed by the column pass, the order of the 2D script,
      gives `Edges2D`. */
  lemma PassesGiveEdges(v: seq<seq<real>>)
    requires |v| >= 3 && Square(v, |v|)
    ensures ColPass(RowPass(v)) == Edges2D(v)
  {
    var n := |v|;
    forall i, j | 0 <= i < n && 0 <= j < n
      ensures ColPass(RowPass(v))[i][j] == Edges2D(v)[i][j]
    {
      assert RowPass(v)[i] == v[Nearest(n, i)];
      if j == 0 || j == n - 1 {
        assert ColPass(RowPass(v))[i][j] == RowPass(v)[i][Nearest(n, j)];
      }
    }
    GridsEqual(ColPass(RowPass(v)), Edges2D(v), n);
  }

  /** After the boundary copy the plate has zero gradient across all four
      edges, keeps its interior, and each corner holds the value of its
      diagonal interior neighbour. */
  lemma Edges2DGradient(v: seq<seq<real>>)
    requires |v| >= 3 && Square(v, |v|)
    ensures forall i, j :: InInterior(|v|, i, j) ==> Edges2D(v)[i][j] == v[i][j]
    ensures ZeroGradient2D(Edges2D(v), |v|)
    ensures Edges2D(v)[0][0] == v[1][1] && Edges2D(v)[0][|v| - 1] == v[1][|v| - 2]
    ensures Edges2D(v)[|v| - 1][0] == v[|v| - 2][1] && Edges2D(v)[|v| - 1][|v| - 1] == v[|v| - 2][|v| - 2]
  {
    var n := |v|;
    assert Nearest(n, 0) == 1 && Nearest(n, n - 1) == n - 2;
  }

  /** `u[c, c] += q`: cell `(c, c)` gains `q`, every other cell is unchanged. */
  function Force2D(v: seq<seq<real>>, c: int, q: real): (u: seq<seq<real>>)
    requires Square(v, |v|) && 0 <= c < |v|
    ensures Square(u, |v|) && u[c][c] == v[c][c] + q
    ensures forall i, j {:trigger u[i][j]} :: 0 <= i < |v| && 0 <= j < |v| && (i != c || j != c) ==>
      u[i][j] == v[i][j]
  {
    v[c := Force1D(v[c], c, q)]
  }

  /** Forcing a cell at least two rows and columns away from every edge
      keeps a zero gradient across the edges. */
  lemma Force2DKeepsGradient(e: seq<seq<real>>, n: int, c: int, q: real)
    requires ZeroGradient2D(e, n) && 2 <= c <= n - 3
    ensures ZeroGradient2D(Force2D(e, c, q), n)
  {
    var s := Force2D(e, c, q);
    assert Square(s, n);
    assert s[0] == e[0] && s[1] == e[1] && s[n - 1] == e[n - 1] && s[n - 2] == e[n - 2];
    forall j | 0 <= j < n
      ensures s[0][j] == s[1][j] && s[n - 1][j] == s[n - 2][j]
    {
      assert e[0][j] == e[1][j] && e[n - 1][j] == e[n - 2][j];
    }
    forall i | 0 <= i < n
      ensures s[i][0] == s[i][1] && s[i][n - 1] == s[i][n - 2]
    {
      assert s[i][0] == e[i][0] && s[i][1] == e[i][1];
      assert s[i][n - 1] == e[i][n - 1] && s[i][n - 2] == e[i][n - 2];
    }
  }

  /** One iteration of the 2D time loop on the pre-step copy `w`, with
      `q = Q * dt`: stencil on the interior, boundary copy, centre forcing. */
  function Step2D(w: seq<seq<real>>, dt: real, a: real, dx: real, q: real): (u: seq<seq<real>>)
    requires |w| >= 3 && Square(w, |w|) && dx > 0.0
    ensures Square(u, |w|)
  {
    Force2D(Edges2D(Interior2D(w, dt, a, dx)), Center(|w|), q)
  }

  /** Every interior cell holds its 5-point value computed from `w` alone,
      the centre cell that value plus `q`. */
  lemma Step2DInterior(w: seq<seq<real>>, dt: real, a: real, dx: real, q: real)
    requires |w| >= 3 && Square(w, |w|) && dx > 0.0
    ensures forall i, j :: InInterior(|w|, i, j) && (i != Center(|w|) || j != Center(|w|)) ==>
      Step2D(w, dt, a, dx, q)[i][j] == Point2D(w, i, j, dt, a, dx)
    ensures Step2D(w, dt, a, dx, q)[Center(|w|)][Center(|w|)]
         == Point2D(w, Center(|w|), Center(|w|), dt, a, dx) + q
  {
  }

  /** With `nodes >= 5` the forced cell is away from the rows and columns
      the boundary copies, so a recorded snapshot has zero gradient across
      all four edges and each corner equals its diagonal neighbour. */
  lemma Step2DEdges(w: seq<seq<real>>, dt: real, a: real, dx: real, q: real)
    requires |w| >= 5 && Square(w, |w|) && dx > 0.0
    ensures ZeroGradient2D(Step2D(w, dt, a, dx, q), |w|)
    ensures Step2D(w, dt, a, dx, q)[0][0] == Step2D(w, dt, a, dx, q)[1][1]
    ensures Step2D(w, dt, a, dx, q)[|w| - 1][|w| - 1] == Step2D(w, dt, a, dx, q)[|w| - 2][|w| - 2]
  {
    var v := Interior2D(w, dt, a, dx);
    var n := |w|;
    Edges2DGradient(v);
    Force2DKeepsGradient(Edges2D(v), n, Center(n), q);
    assert Step2D(w, dt, a, dx, q)[0][0] == Edges2D(v)[0][0];
    assert Step2D(w, dt, a, dx, q)[1][1] == Edges2D(v)[1][1];
    assert Step2D(w, dt, a, dx, q)[n - 1][n - 1] == Edges2D(v)[n - 1][n - 1];
    assert Step2D(w, dt, a, dx, q)[n - 2][n - 2] == Edges2D(v)[n - 2][n - 2];
  }

  /** A uniform plate stays uniform under the stencil, so the first step from
      it only raises the centre cell by `q`. */
  lemma Step2DUniform(n: nat, v: real, dt: real, a: real, dx: real, q: real)
    requires n >= 3 && dx > 0.0
    ensures forall i, j :: 0 <= i < n && 0 <= j < n ==>
      Step2D(Fill2D(n, v), dt, a, dx, q)[i][j] == if i == Center(n) && j == Center(n) then v + q else v
  {
    var w := Fill2D(n, v);
    forall i, j | InInterior(n, i, j)
      ensures Interior2D(w, dt, a, dx)[i][j] == v
    {
      assert w[i - 1][j] - 2.0 * w[i][j] + w[i + 1][j] == 0.0;
      assert w[i][j - 1] - 2.0 * w[i][j] + w[i][j + 1] == 0.0;
    }
  }

  /** With a stable `dt` and `q >= 0` a 2D step keeps every value at or above
      the lowest value of `w` and raises the highest by at most `q`, as in 1D. */
  lemma Step2DBounded(w: seq<seq<real>>, dt: real, a: real, dx: real, q: real, lo: real, hi: real, top: real)
    requires |w| >= 3 && Square(w, |w|) && dx > 0.0 && Stable2D(dt, a, dx) && q >= 0.0
    requires Within2D(w, lo, hi) && hi + q <= top
    ensures Within2D(Step2D(w, dt, a, dx, q), lo, top)
  {
    Interior2DBounded(w, dt, a, dx, lo, hi);
  }

  /** The 2D field before the loop: 10 everywhere. */
  function Init2D(n: nat): (g: seq<seq<real>>)
    ensures Square(g, n) && Within2D(g, Initial, Initial)
  {
    Fill2D(n, Initial)
  }

  /** The 2D field after `k` iterations of the time loop. */
  function Evolve2D(g0: seq<seq<real>>, k: nat, dt: real, a: real, dx: real, q: real): (g: seq<seq<real>>)
    requires |g0| >= 3 && Square(g0, |g0|) && dx > 0.0
    ensures Square(g, |g0|)
    decreases k
  {
    if k == 0 then g0 else Step2D(Evolve2D(g0, k - 1, dt, a, dx, q), dt, a, dx, q)
  }

  /** With a stable `dt` and `q >= 0`, after `k` steps every value lies
      between the lowest starting value and the highest plus `k * q`.
      The heat added by `k` steps is written `Clock.Stamp(k, q)`, the sum of
      `k` increments `q`; `Clock.StampIsProduct` shows it equals `k * q`. */
  lemma {:induction false} Evolve2DBounded(g0: seq<seq<real>>, k: nat, dt: real, a: real, dx: real, q: real, lo: real, hi: real)
    requires |g0| >= 3 && Square(g0, |g0|) && dx > 0.0 && Stable2D(dt, a, dx) && q >= 0.0
    requires Within2D(g0, lo, hi)
    ensures Within2D(Evolve2D(g0, k, dt, a, dx, q), lo, hi + Clock.Stamp(k, q))
  {
    if k > 0 {
      Evolve2DBounded(g0, k - 1, dt, a, dx, q, lo, hi);
      Step2DBounded(Evolve2D(g0, k - 1, dt, a, dx, q), dt, a, dx, q, lo, hi + Clock.Stamp(k - 1, q), hi + Clock.Stamp(k, q));
    }
  }

  /** The 2D snapshots after iterations `1 .. k`, oldest first. */
  function Trace2D(g0: seq<seq<real>>, k: nat, dt: real, a: real, dx: real, q: real): (t: seq<seq<seq<real>>>)
    requires |g0| >= 3 && Square(g0, |g0|) && dx > 0.0
    ensures |t| == k
  {
    seq(k, m requires 0 <= m < k => Evolve2D(g0, m + 1, dt, a, dx, q))
  }

  /** One more iteration appends one snapshot. */
  lemma Trace2DSnoc(g0: seq<seq<real>>, k: nat, dt: real, a: real, dx: real, q: real)
    requires |g0| >= 3 && Square(g0, |g0|) && dx > 0.0
    ensures Trace2D(g0, k + 1, dt, a, dx, q) == Trace2D(g0, k, dt, a, dx, q) + [Evolve2D(g0, k + 1, dt, a, dx, q)]
  {
    var t, s := Trace2D(g0, k + 1, dt, a, dx, q), Trace2D(g0, k, dt, a, dx, q) + [Evolve2D(g0, k + 1, dt, a, dx, q)];
    forall m | 0 <= m < k + 1
      ensures t[m] == s[m]
    {
      if m < k {
        assert s[m] == Trace2D(g0, k, dt, a, dx, q)[m];
      }
    }
  }

  /** With `n >= 5`, after every iteration (so in every recorded snapshot)
      the field has zero gradient at its four edges. */
  lemma Evolve2DEdges(n: nat, k: nat, dt: real, a: real, dx: real, q: real)
    requires n >= 5 && dx > 0.0 && k >= 1
    ensures ZeroGradient2D(Evolve2D(Init2D(n), k, dt, a, dx, q), n)
  {
    Step2DEdges(Evolve2D(Init2D(n), k - 1, dt, a, dx, q), dt, a, dx, q);
  }

  /** With a stable `dt` and `q >= 0` snapshot `m` lies within
      `[10, 10 + (m + 1) * q]`, the bound written `Clock.Stamp(m + 1, q)`
      (equal to `(m + 1) * q` by `Clock.StampIsProduct`). */
  lemma Trace2DBounded(n: nat, k: nat, dt: real, a: real, dx: real, q: real)
    requires n >= 3 && dx > 0.0 && Stable2D(dt, a, dx) && q >= 0.0
    ensures forall m :: 0 <= m < k ==>
      Within2D(Trace2D(Init2D(n), k, dt, a, dx, q)[m], Initial, Initial + Clock.Stamp(m + 1, q))
  {
    forall m | 0 <= m < k
      ensures Within2D(Trace2D(Init2D(n), k, dt, a, dx, q)[m], Initial, Initial + Clock.Stamp(m + 1, q))
    {
      Evolve2DBounded(Init2D(n), m + 1, dt, a, dx, q, Initial, Initial);
    }
  }

  /** `u[0, :] = u[1, :]; u[-1, :] = u[-2, :]` on the buffer. */
  method CopyRows(u: array2<real>)
    requires u.Length0 == u.Length1 >= 3
    modifies u
    ensures Rows(u) == RowPass(old(Rows(u)))
  {
    ghost var v := Rows(u);
    var last := u.Length0 - 1;
    forall j | 0 <= j < u.Length1 {
      u[0, j] := u[1, j];
    }
    forall j | 0 <= j < u.Length1 {
      u[last, j] := u[last - 1, j];
    }
    forall i, j | 0 <= i < u.Length0 && 0 <= j < u.Length1
      ensures Rows(u)[i][j] == RowPass(v)[i][j]
    {
      if i == 0 || i == last {
        assert Rows(u)[i][j] == v[if i == 0 then 1 else last - 1][j];
      } else {
        assert Rows(u)[i][j] == v[i][j];
      }
    }
    GridsEqual(Rows(u), RowPass(v), u.Length0);
  }

  /** `u[:, 0] = u[:, 1]; u[:, -1] = u[:, -2]` on the buffer. */
  method CopyCols(u: array2<real>)
    requires u.Length0 == u.Length1 >= 3
    modifies u
    ensures Rows(u) == ColPass(old(Rows(u)))
  {
    ghost var v := Rows(u);
    var last := u.Length1 - 1;
    forall i | 0 <= i < u.Length0 {
      u[i, 0] := u[i, 1];
    }
    forall i | 0 <= i < u.Length0 {
      u[i, last] := u[i, last - 1];
    }
    forall i, j | 0 <= i < u.Length0 && 0 <= j < u.Length1
      ensures Rows(u)[i][j] == ColPass(v)[i][j]
    {
      if j == 0 || j == last {
        assert Rows(u)[i][j] == v[i][if j == 0 then 1 else last - 1];
      } else {
        assert Rows(u)[i][j] == v[i][j];
      }
    }
    GridsEqual(Rows(u), ColPass(v), u.Length0);
  }

  /** `u[c, c] += q` on the buffer. */
  method AddAt2D(u: array2<real>, c: int, q: real)
    requires u.Length0 == u.Length1 && 0 <= c < u.Length0
    modifies u
    ensures Rows(u) == Force2D(old(Rows(u)), c, q)
  {
    u[c, c] := u[c, c] + q;
    GridsEqual(Rows(u), Force2D(old(Rows(u)), c, q), u.Length0);
  }

  /** One iteration on the 2D buffer: `w = u.copy()` and the interior update,
      the row pass, the column pass, `u[center, center] += q`. */
  method StepInPlace2D(u: array2<real>, dt: real, a: real, dx: real, q: real)
    requires u.Length0 == u.Length1 >= 3 && dx > 0.0
    modifies u
    ensures Rows(u) == Step2D(old(Rows(u)), dt, a, dx, q)
  {
    UpdateInterior2D(u, dt, a, dx);
    ghost var v := Rows(u);
    CopyRows(u);
    CopyCols(u);
    PassesGiveEdges(v);
    AddAt2D(u, Center(u.Length0), q);
  }

  /** `simulate_2d_neumann_forcing(a, length, time, nodes, dt, Q)`: as
      `Simulate1D`, on the `nodes x nodes` plate. */
  method Simulate2D(a: real, length: real, time: real, nodes: int, dt: real, Q: real)
      returns (results: seq<seq<seq<real>>>, times: seq<real>)
    requires nodes >= 3 && length > 0.0 && dt > 0.0
    ensures |results| == Clock.StepCount(time, dt) && times == Clock.Arange(time, dt)
    ensures results == Trace2D(Init2D(nodes), |results|, dt, a, Dx(length, nodes), Q * dt)
  {
    var dx := Dx(length, nodes);
    var u := new real[nodes, nodes]((i, j) => Initial);
    ghost var g0 := Init2D(nodes);
    GridsEqual(Rows(u), g0, nodes);

    results := [];
    var counter := 0.0;
    ghost var k: nat := 0;
    while counter < time
      invariant counter == Clock.Stamp(k, dt)
      invariant k <= Clock.StepCount(time, dt)
      invariant u.Length0 == nodes && u.Length1 == nodes
      invariant Rows(u) == Evolve2D(g0, k, dt, a, dx, Q * dt)
      invariant results == Trace2D(g0, k, dt, a, dx, Q * dt)
      decreases Clock.StepCount(time, dt) - k
    {
      Clock.BelowTime(time, dt, k);
      StepInPlace2D(u, dt, a, dx, Q * dt);
      Trace2DSnoc(g0, k, dt, a, dx, Q * dt);
      counter := counter + dt;
      results := results + [Rows(u)];
      k := k + 1;
    }
    Clock.BelowTime(time, dt, k);
    times := Clock.Arange(time, dt);
  }
}
