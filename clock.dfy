/** The time loop `while counter < time: ...; counter += dt` and the time
    stamps `np.arange(0, time, dt)`, both in exact arithmetic. */
module Clock {

  /** The loop counter after `k` increments `counter += dt` from 0. */
  function Stamp(k: nat, dt: real): real
  {
    if k == 0 then 0.0 else Stamp(k - 1, dt) + dt
  }

  /** The counter after `k` increments is `k * dt`. */
  lemma {:induction false} StampIsProduct(k: nat, dt: real)
    ensures Stamp(k, dt) == k as real * dt
  {
    if k > 0 {
      StampIsProduct(k - 1, dt);
    }
  }

  /** With a positive `dt` the counter rises strictly with every increment. */
  lemma {:induction false} StampRises(j: nat, k: nat, dt: real)
    requires dt > 0.0 && j < k
    ensures Stamp(j, dt) < Stamp(k, dt)
    decreases k
  {
    if j < k - 1 {
      StampRises(j, k - 1, dt);
    }
  }

  /** Number of iterations of `while counter < time` when `counter` starts
      at 0 and grows by exactly `dt`: none when `time` is not positive,
      otherwise one more than the count for the time left after the first
      increment. It is the least `n` whose counter reaches `time`. */
  function StepCount(time: real, dt: real): (n: nat)
    requires dt > 0.0
    ensures Stamp(n, dt) >= time
    ensures n > 0 ==> Stamp(n - 1, dt) < time
    decreases if time <= 0.0 then 0 else (time / dt).Floor + 1
  {
    if time <= 0.0 then 0
    else
      Shrink(time, dt);
      var m := StepCount(time - dt, dt);
      ShiftStamp(m, dt);
      if m > 0 then ShiftStamp(m - 1, dt); 1 + m else 1 + m
  }

  /** Taking one increment off a positive remaining time lowers the measure
      `floor(time / dt) + 1` by one. */
  lemma Shrink(time: real, dt: real)
    requires dt > 0.0 && time > 0.0
    ensures (time - dt) / dt == time / dt - 1.0
    ensures (time / dt).Floor >= 0
  {
    assert (time - dt) / dt == time / dt - dt / dt;
  }

  /** One more increment adds `dt` to the counter. */
  lemma ShiftStamp(m: nat, dt: real)
    ensures Stamp(m + 1, dt) == Stamp(m, dt) + dt
  {
  }

  /** After `k` increments the counter is still below `time` exactly when
      fewer than `StepCount(time, dt)` iterations have run: the loop test
      passes `StepCount` times and then fails. */
  lemma BelowTime(time: real, dt: real, k: nat)
    requires dt > 0.0
    ensures Stamp(k, dt) < time <==> k < StepCount(time, dt)
  {
    if k < StepCount(time, dt) - 1 {
      StampRises(k, StepCount(time, dt) - 1, dt);
    } else if k > StepCount(time, dt) {
      StampRises(StepCount(time, dt), k, dt);
    }
  }

  /** `np.arange(0, time, dt)`: the stamps `0, dt, 2dt, ...` that lie below
      `time`, one per iteration of the time loop; they rise strictly, and
      the next stamp would reach `time`. */
  function Arange(time: real, dt: real): (ts: seq<real>)
    requires dt > 0.0
    ensures |ts| == StepCount(time, dt)
    ensures forall k :: 0 <= k < |ts| ==> ts[k] == k as real * dt && ts[k] < time
    ensures forall j, k :: 0 <= j < k < |ts| ==> ts[j] < ts[k]
    ensures |ts| as real * dt >= time
  {
    var ts := seq(StepCount(time, dt), k requires 0 <= k => Stamp(k, dt));
    StampsBelow(time, dt, ts);
    StampsRise(dt, ts);
    StampIsProduct(|ts|, dt);
    StampsAreProducts(dt, ts);
    ts
  }

  lemma StampsBelow(time: real, dt: real, ts: seq<real>)
    requires dt > 0.0 && |ts| == StepCount(time, dt)
    requires forall k :: 0 <= k < |ts| ==> ts[k] == Stamp(k, dt)
    ensures forall k :: 0 <= k < |ts| ==> ts[k] < time
  {
    forall k | 0 <= k < |ts| ensures ts[k] < time {
      BelowTime(time, dt, k);
    }
  }

  lemma StampsRise(dt: real, ts: seq<real>)
    requires dt > 0.0
    requires forall k :: 0 <= k < |ts| ==> ts[k] == Stamp(k, dt)
    ensures forall j, k :: 0 <= j < k < |ts| ==> ts[j] < ts[k]
  {
    forall j, k | 0 <= j < k < |ts| ensures ts[j] < ts[k] {
      StampRises(j, k, dt);
    }
  }

  lemma StampsAreProducts(dt: real, ts: seq<real>)
    requires forall k :: 0 <= k < |ts| ==> ts[k] == Stamp(k, dt)
    ensures forall k :: 0 <= k < |ts| ==> ts[k] == k as real * dt
  {
    forall k | 0 <= k < |ts| ensures ts[k] == k as real * dt {
      StampIsProduct(k, dt);
    }
  }
}
