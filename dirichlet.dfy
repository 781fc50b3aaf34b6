/** `simulate_1d` and `simulate_2d` of heatEquation1Dn2D_2.py: a plate at 20
    degrees whose boundary cells are set to 100 once and never written again;
    each step rewrites only the interior by the explicit stencil and records
    a copy of the field. */
module Dirichlet {
  import opened Field
  import opened Stencil
  import Clock

  /** The value the boundary cells are set to. */
  const Edge: real := 100.0
  /** The value every cell starts from (`np.zeros(...) + 20`). */
  const Start: real := 20.0


  /** The time step of the script's own run (`a = 110`, `length = 50`,
      `nodes = 50`): `dt_common` is `1/440`, the mesh ratio is 1/4 and both
      stability bounds hold. */
  lemma MainTimeStep()
    ensures DtCommon(110.0, 50.0, 50) == 1.0 / 440.0
    ensures Ratio(DtCommon(110.0, 50.0, 50), 110.0, Dx(50.0, 50)) == 0.25
    ensures Stable1D(DtCommon(110.0, 50.0, 50), 110.0, Dx(50.0, 50)) && Stable2D(DtCommon(110.0, 50.0, 50), 110.0, Dx(50.0, 50))
  {
    assert Dx(50.0, 50) == 50.0 / 50.0;
  }

  // ---------------------------------------------------------------------------
  // 1D
  // ---------------------------------------------------------------------------

  /** The 1D field before the loop: 20 everywhere, 100 at both ends. */
  function Init1D(n: nat): (u: seq<real>)
    requires n >= 3
    ensures |u| == n && u[0] == Edge && u[n - 1] == Edge
    ensures forall i :: 1 <= i < n - 1 ==> u[i] == Start
  {
    Fill1D(n, Start)[0 := Edge][n - 1 := Edge]
  }

  /** The field after `k` steps: `k` interior updates, each from the field
      the previous one left. No step changes a boundary cell. */
  function Evolve1D(u0: seq<real>, k: nat, dt: real, a: real, dx: real): (u: seq<real>)
    requires |u0| >= 3 && dx > 0.0
    ensures |u| == |u0| && u[0] == u0[0] && u[|u0| - 1] == u0[|u0| - 1]
    decreases k
  {
    if k == 0 then u0 else Interior1D(Evolve1D(u0, k - 1, dt, a, dx), dt, a, dx)
  }

  /** Maximum principle over any number of steps: with a stable `dt`, a field
      that starts within `[lo, hi]` stays within `[lo, hi]`. */
  lemma {:induction false} Evolve1DBounded(u0: seq<real>, k: nat, dt: real, a: real, dx: real, lo: real, hi: real)
    requires |u0| >= 3 && dx > 0.0 && Stable1D(dt, a, dx)
    requires Within1D(u0, lo, hi)
    ensures Within1D(Evolve1D(u0, k, dt, a, dx), lo, hi)
  {
    if k > 0 {
      Evolve1DBounded(u0, k - 1, dt, a, dx, lo, hi);
      Interior1DBounded(Evolve1D(u0, k - 1, dt, a, dx), dt, a, dx, lo, hi);
    }
  }

  /** The snapshots after steps `1 .. k`, oldest first: what the time loop
      appends to `results` over its first `k` iterations. */
  function Trace1D(u0: seq<real>, k: nat, dt: real, a: real, dx: real): (t: seq<seq<real>>)
    requires |u0| >= 3 && dx > 0.0
    ensures |t| == k
  {
    seq(k, m requires 0 <= m < k => Evolve1D(u0, m + 1, dt, a, dx))
  }

  /** One more step appends one snapshot. */
  lemma Trace1DSnoc(u0: seq<real>, k: nat, dt: real, a: real, dx: real)
    requires |u0| >= 3 && dx > 0.0
    ensures Trace1D(u0, k + 1, dt, a, dx) == Trace1D(u0, k, dt, a, dx) + [Evolve1D(u0, k + 1, dt, a, dx)]
  {
    var t, s := Trace1D(u0, k + 1, dt, a, dx), Trace1D(u0, k, dt, a, dx) + [Evolve1D(u0, k + 1, dt, a, dx)];
    forall m | 0 <= m < k + 1
      ensures t[m] == s[m]
    {
      if m < k {
        assert s[m] == Trace1D(u0, k, dt, a, dx)[m];
      }
    }
  }

  /** Every snapshot of a run from the initial rod has `nodes` values and
      100 at both ends. */
  lemma Trace1DEdges(n: nat, k: nat, dt: real, a: real, dx: real)
    requires n >= 3 && dx > 0.0
    ensures forall m :: 0 <= m < k ==>
      |Trace1D(Init1D(n), k, dt, a, dx)[m]| == n &&
      Trace1D(Init1D(n), k, dt, a, dx)[m][0] == Edge &&
      Trace1D(Init1D(n), k, dt, a, dx)[m][n - 1] == Edge
  {
  }

  /** With a stable `dt` every value of every snapshot lies within `[20, 100]`. */
  lemma Trace1DBounded(n: nat, k: nat, dt: real, a: real, dx: real)
    requires n >= 3 && dx > 0.0 && Stable1D(dt, a, dx)
    ensures forall m :: 0 <= m < k ==> Within1D(Trace1D(Init1D(n), k, dt, a, dx)[m], Start, Edge)
  {
    forall m | 0 <= m < k
      ensures Within1D(Trace1D(Init1D(n), k, dt, a, dx)[m], Start, Edge)
    {
      Evolve1DBounded(Init1D(n), m + 1, dt, a, dx, Start, Edge);
    }
  }

  /** The first step from the initial rod only raises values: every interior
      cell starts at 20 with neighbours at 20 or 100. */
  lemma FirstStepRises(n: nat, dt: real, a: real, dx: real)
    requires n >= 3 && dx > 0.0 && Stable1D(dt, a, dx)
    ensures Below1D(Init1D(n), Evolve1D(Init1D(n), 1, dt, a, dx))
  {
    var u0 := Init1D(n);
    forall i | 1 <= i < n - 1
      ensures u0[i] <= Interior1D(u0, dt, a, dx)[i]
    {
      Point1DWeights(u0, i, dt, a, dx);
      MulNonneg(Ratio(dt, a, dx), u0[i - 1] - 2.0 * u0[i] + u0[i + 1]);
    }
  }

  /** Monotone relaxation: with a stable `dt` the rod heated from its ends
      never cools anywhere; each step lies at or above the one before. */
  lemma {:induction false} Evolve1DRises(n: nat, k: nat, dt: real, a: real, dx: real)
    requires n >= 3 && dx > 0.0 && Stable1D(dt, a, dx)
    ensures Below1D(Evolve1D(Init1D(n), k, dt, a, dx), Evolve1D(Init1D(n), k + 1, dt, a, dx))
  {
    if k == 0 {
      FirstStepRises(n, dt, a, dx);
    } else {
      Evolve1DRises(n, k - 1, dt, a, dx);
      Interior1DMono(Evolve1D(Init1D(n), k - 1, dt, a, dx), Evolve1D(Init1D(n), k, dt, a, dx), dt, a, dx);
    }
  }

  /** Snapshot `i + 1` lies at or above snapshot `i`, cell by cell. */
  lemma SnapshotRises(n: nat, k: nat, i: nat, dt: real, a: real, dx: real)
    requires n >= 3 && dx > 0.0 && Stable1D(dt, a, dx) && i < k - 1
    ensures Below1D(Trace1D(Init1D(n), k, dt, a, dx)[i], Trace1D(Init1D(n), k, dt, a, dx)[i + 1])
  {
    var t := Trace1D(Init1D(n), k, dt, a, dx);
    Evolve1DRises(n, i + 1, dt, a, dx);
    assert t[i] == Evolve1D(Init1D(n), i + 1, dt, a, dx);
    assert t[i + 1] == Evolve1D(Init1D(n), i + 2, dt, a, dx);
  }

  /** Every snapshot lies at or above the one before it, cell by cell. */
  lemma Trace1DRises(n: nat, k: nat, dt: real, a: real, dx: real)
    requires n >= 3 && dx > 0.0 && Stable1D(dt, a, dx)
    ensures forall i :: 0 <= i < k - 1 ==>
      Below1D(Trace1D(Init1D(n), k, dt, a, dx)[i], Trace1D(Init1D(n), k, dt, a, dx)[i + 1])
  {
    forall i | 0 <= i < k - 1
      ensures Below1D(Trace1D(Init1D(n), k, dt, a, dx)[i], Trace1D(Init1D(n), k, dt, a, dx)[i + 1])
    {
      SnapshotRises(n, k, i, dt, a, dx);
    }
  }

  /** The centre of the rod (`nodes // 2`) never decreases from one snapshot
      to a later one, and the first snapshot is at or above the starting 20. */
  lemma Trace1DCenterRises(n: nat, k: nat, dt: real, a: real, dx: real)
    requires n >= 3 && dx > 0.0 && Stable1D(dt, a, dx)
    ensures k > 0 ==> Start <= Trace1D(Init1D(n), k, dt, a, dx)[0][n / 2]
    ensures forall j, m :: 0 <= j <= m < k ==>
      Trace1D(Init1D(n), k, dt, a, dx)[j][n / 2] <= Trace1D(Init1D(n), k, dt, a, dx)[m][n / 2]
  {
    var t := Trace1D(Init1D(n), k, dt, a, dx);
    if k > 0 {
      FirstStepRises(n, dt, a, dx);
      CenterOf(Init1D(n), t[0], n / 2);
    }
    Trace1DRises(n, k, dt, a, dx);
    forall j, m | 0 <= j <= m < k
      ensures t[j][n / 2] <= t[m][n / 2]
    {
      ChainBelow(t, j, m);
      CenterOf(t[j], t[m], n / 2);
    }
  }

  lemma CenterOf(u: seq<real>, v: seq<real>, c: int)
    requires Below1D(u, v) && 0 <= c < |u|
    ensures u[c] <= v[c]
  {
  }

  /** The run the script makes: with its own time step `dt_common(a,
      length, nodes)` every value of every one of the `StepCount` snapshots
      lies within `[20, 100]`, and the centre never cools. */
  lemma MainRun1D(a: real, length: real, time: real, nodes: nat)
    requires a > 0.0 && length > 0.0 && nodes >= 3
    ensures forall m :: 0 <= m < Clock.StepCount(time, DtCommon(a, length, nodes)) ==>
      Within1D(Trace1D(Init1D(nodes), Clock.StepCount(time, DtCommon(a, length, nodes)),
        DtCommon(a, length, nodes), a, Dx(length, nodes))[m], Start, Edge)
    ensures forall j, m :: 0 <= j <= m < Clock.StepCount(time, DtCommon(a, length, nodes)) ==>
      Trace1D(Init1D(nodes), Clock.StepCount(time, DtCommon(a, length, nodes)), DtCommon(a, length, nodes), a, Dx(length, nodes))[j][nodes / 2]
      <= Trace1D(Init1D(nodes), Clock.StepCount(time, DtCommon(a, length, nodes)), DtCommon(a, length, nodes), a, Dx(length, nodes))[m][nodes / 2]
  {
    var dt, dx := DtCommon(a, length, nodes), Dx(length, nodes);
    Trace1DBounded(nodes, Clock.StepCount(time, dt), dt, a, dx);
    Trace1DCenterRises(nodes, Clock.StepCount(time, dt), dt, a, dx);
  }

  /** `simulate_1d(a, length, time, nodes, dt)`: the loop runs `StepCount`
      times and `results` is the trace of that many steps from the initial
      rod; the time stamps are `arange(0, time, dt)`, as many as the
      snapshots. */
  method Simulate1D(a: real, length: real, time: real, nodes: int, dt: real)
      returns (results: seq<seq<real>>, times: seq<real>)
    requires nodes >= 3 && length > 0.0 && dt > 0.0
    ensures |results| == Clock.StepCount(time, dt) && times == Clock.Arange(time, dt)
    ensures results == Trace1D(Init1D(nodes), |results|, dt, a, Dx(length, nodes))
  {
    var dx := Dx(length, nodes);
    var u := new real[nodes](i => Start);
    u[0] := Edge;
    u[nodes - 1] := Edge;
    ghost var u0 := Init1D(nodes);
    assert u[..] == u0;

    results := [];
    var counter := 0.0;
    ghost var k: nat := 0;
    while counter < time
      invariant counter == Clock.Stamp(k, dt)
      invariant k <= Clock.StepCount(time, dt)
      invariant u.Length == nodes && u[..] == Evolve1D(u0, k, dt, a, dx)
      invariant results == Trace1D(u0, k, dt, a, dx)
      decreases Clock.StepCount(time, dt) - k
    {
      Clock.BelowTime(time, dt, k);
      UpdateInterior1D(u, dt, a, dx);
      Trace1DSnoc(u0, k, dt, a, dx);
      counter := counter + dt;
      results := results + [u[..]];
      k := k + 1;
    }
    Clock.BelowTime(time, dt, k);
    times := Clock.Arange(time, dt);
  }

  // ---------------------------------------------------------------------------
  // 2D
  // ---------------------------------------------------------------------------

  /** The 2D field before the loop: 20 inside, 100 on the whole first and last
      row and column. */
  function Init2D(n: nat): (g: seq<seq<real>>)
    requires n >= 3
    ensures Square(g, n)
    ensures forall i, j {:trigger g[i][j]} :: 0 <= i < n && 0 <= j < n && OnBoundary(n, i, j) ==> g[i][j] == Edge
    ensures forall i, j {:trigger g[i][j]} :: InInterior(n, i, j) ==> g[i][j] == Start
  {
    seq(n, i requires 0 <= i < n =>
      seq(n, j requires 0 <= j < n => if OnBoundary(n, i, j) then Edge else Start))
  }

  /** The 2D field after `k` steps. No step changes a boundary cell. */
  function Evolve2D(g0: seq<seq<real>>, k: nat, dt: real, a: real, dx: real): (g: seq<seq<real>>)
    requires |g0| >= 3 && Square(g0, |g0|) && dx > 0.0
    ensures Square(g, |g0|)
    ensures forall i, j {:trigger g[i][j]} :: 0 <= i < |g0| && 0 <= j < |g0| && OnBoundary(|g0|, i, j) ==> g[i][j] == g0[i][j]
    decreases k
  {
    if k == 0 then g0 else Interior2D(Evolve2D(g0, k - 1, dt, a, dx), dt, a, dx)
  }

  /** Maximum principle in 2D over any number of steps. */
  lemma {:induction false} Evolve2DBounded(g0: seq<seq<real>>, k: nat, dt: real, a: real, dx: real, lo: real, hi: real)
    requires |g0| >= 3 && Square(g0, |g0|) && dx > 0.0 && Stable2D(dt, a, dx)
    requires Within2D(g0, lo, hi)
    ensures Within2D(Evolve2D(g0, k, dt, a, dx), lo, hi)
  {
    if k > 0 {
      Evolve2DBounded(g0, k - 1, dt, a, dx, lo, hi);
      Interior2DBounded(Evolve2D(g0, k - 1, dt, a, dx), dt, a, dx, lo, hi);
    }
  }

  /** The snapshots after steps `1 .. k`, oldest first. */
  function Trace2D(g0: seq<seq<real>>, k: nat, dt: real, a: real, dx: real): (t: seq<seq<seq<real>>>)
    requires |g0| >= 3 && Square(g0, |g0|) && dx > 0.0
    ensures |t| == k
  {
    seq(k, m requires 0 <= m < k => Evolve2D(g0, m + 1, dt, a, dx))
  }

  /** One more step appends one snapshot. */
  lemma Trace2DSnoc(g0: seq<seq<real>>, k: nat, dt: real, a: real, dx: real)
    requires |g0| >= 3 && Square(g0, |g0|) && dx > 0.0
    ensures Trace2D(g0, k + 1, dt, a, dx) == Trace2D(g0, k, dt, a, dx) + [Evolve2D(g0, k + 1, dt, a, dx)]
  {
    var t, s := Trace2D(g0, k + 1, dt, a, dx), Trace2D(g0, k, dt, a, dx) + [Evolve2D(g0, k + 1, dt, a, dx)];
    forall m | 0 <= m < k + 1
      ensures t[m] == s[m]
    {
      if m < k {
        assert s[m] == Trace2D(g0, k, dt, a, dx)[m];
      }
    }
  }

  /** Every snapshot of a run from the initial plate is `n x n` with 100 on
      its whole boundary. */
  lemma Trace2DEdges(n: nat, k: nat, dt: real, a: real, dx: real)
    requires n >= 3 && dx > 0.0
    ensures forall m :: 0 <= m < k ==> (Square(Trace2D(Init2D(n), k, dt, a, dx)[m], n) &&
      forall i, j :: 0 <= i < n && 0 <= j < n && OnBoundary(n, i, j) ==>
        Trace2D(Init2D(n), k, dt, a, dx)[m][i][j] == Edge)
  {
  }

  /** With a stable `dt` every value of every snapshot lies within `[20, 100]`. */
  lemma Trace2DBounded(n: nat, k: nat, dt: real, a: real, dx: real)
    requires n >= 3 && dx > 0.0 && Stable2D(dt, a, dx)
    ensures forall m :: 0 <= m < k ==> (Square(Trace2D(Init2D(n), k, dt, a, dx)[m], n) &&
      Within2D(Trace2D(Init2D(n), k, dt, a, dx)[m], Start, Edge))
  {
    forall m | 0 <= m < k
      ensures Within2D(Trace2D(Init2D(n), k, dt, a, dx)[m], Start, Edge)
    {
      Evolve2DBounded(Init2D(n), m + 1, dt, a, dx, Start, Edge);
    }
  }

  /** The run the script makes: with its own time step `dt_common(a,
      length, nodes)` every one of the `StepCount` snapshots is a
      `nodes x nodes` plate whose values lie within `[20, 100]`. */
  lemma MainRun2D(a: real, length: real, time: real, nodes: nat)
    requires a > 0.0 && length > 0.0 && nodes >= 3
    ensures forall m :: 0 <= m < Clock.StepCount(time, DtCommon(a, length, nodes)) ==>
      Square(Trace2D(Init2D(nodes), Clock.StepCount(time, DtCommon(a, length, nodes)),
        DtCommon(a, length, nodes), a, Dx(length, nodes))[m], nodes) &&
      Within2D(Trace2D(Init2D(nodes), Clock.StepCount(time, DtCommon(a, length, nodes)),
        DtCommon(a, length, nodes), a, Dx(length, nodes))[m], Start, Edge)
  {
    Trace2DBounded(nodes, Clock.StepCount(time, DtCommon(a, length, nodes)), DtCommon(a, length, nodes), a, Dx(length, nodes));
  }

  /** The plate before the loop, `np.zeros((nodes, nodes)) + 20` followed by
      the four edge assignments of 100, gathered into one assignment over the
      boundary cells. */
  method Plate2D(nodes: int) returns (u: array2<real>)
    requires nodes >= 3
    ensures fresh(u) && u.Length0 == nodes && u.Length1 == nodes
    ensures Rows(u) == Init2D(nodes)
  {
    u := new real[nodes, nodes]((i, j) => Start);
    forall i, j | 0 <= i < nodes && 0 <= j < nodes && OnBoundary(nodes, i, j) {
      u[i, j] := Edge;
    }
    GridsEqual(Rows(u), Init2D(nodes), nodes);
  }

  /** `simulate_2d(a, length, time, nodes, dt)`: as `Simulate1D`, on the
      `nodes x nodes` plate with the 5-point rule. */
  method Simulate2D(a: real, length: real, time: real, nodes: int, dt: real)
      returns (results: seq<seq<seq<real>>>, times: seq<real>)
    requires nodes >= 3 && length > 0.0 && dt > 0.0
    ensures |results| == Clock.StepCount(time, dt) && times == Clock.Arange(time, dt)
    ensures results == Trace2D(Init2D(nodes), |results|, dt, a, Dx(length, nodes))
  {
    var dx := Dx(length, nodes);
    var u := Plate2D(nodes);
    ghost var g0 := Init2D(nodes);

    results := [];
    var counter := 0.0;
    ghost var k: nat := 0;
    while counter < time
      invariant counter == Clock.Stamp(k, dt)
      invariant k <= Clock.StepCount(time, dt)
      invariant u.Length0 == nodes && u.Length1 == nodes
      invariant Rows(u) == Evolve2D(g0, k, dt, a, dx)
      invariant results == Trace2D(g0, k, dt, a, dx)
      decreases Clock.StepCount(time, dt) - k
    {
      Clock.BelowTime(time, dt, k);
      UpdateInterior2D(u, dt, a, dx);
      Trace2DSnoc(g0, k, dt, a, dx);
      counter := counter + dt;
      results := results + [Rows(u)];
      k := k + 1;
    }
    Clock.BelowTime(time, dt, k);
    times := Clock.Arange(time, dt);
  }
}
