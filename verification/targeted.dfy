/** Targeted animations: the concrete strategy periodically proposes a grid of
    target positions, and the shared base logic moves every ball toward its
    target at a bounded speed without ever overshooting. */
module Targeted {
  import opened Frames
  import opened Ranges

  /** Interpolation speed: nine tenths of the rig's maximum ball velocity. */
  const Velocity: real := MaxBallVelocity * 0.9

  /** The strategy's target proposal: (timestamp, time delta, current targets)
      to the next target grid. */
  type TargetFn = (real, real, Frame) -> Frame

  /** The stored targets before the first proposal: 0.0 for every ball. */
  function InitialTargets(rows: nat, cols: nat): (t: Frame)
    ensures IsGrid(t, rows, cols)
    ensures forall i, j :: 0 <= i < rows && 0 <= j < cols ==> t[i][j] == 0.0
  {
    Fill(rows, cols, 0.0)
  }

  /** One ball's next position: reach the target when it is within `distance`,
      otherwise move by exactly `distance` toward it. */
  function StepToward(position: real, target: real, distance: real): (p: real)
    ensures Abs(target - position) <= distance ==> p == target
    ensures 0.0 <= distance ==> Abs(p - target) <= Abs(position - target)
    ensures 0.0 <= distance ==> Abs(p - position) <= distance
    ensures 0.0 <= distance ==> Min(position, target) <= p <= Max(position, target)
    ensures 0.0 < distance < Abs(target - position) ==>
              Abs(p - position) == distance && (position < target <==> position < p)
  {
    if Abs(target - position) > distance then
      if position > target then position - distance else position + distance
    else
      target
  }

  /** One tick of a targeted animation. `targets` is the grid the base keeps
      between ticks; the result is the next frame paired with the grid kept
      for the following tick. At timestamp 0 the fresh proposal is returned
      as the frame and the stored grid is left alone; afterwards the proposal
      replaces the stored grid and every ball of `last` steps toward it by at
      most `Velocity * dt`. */
  function TargetedFrame(propose: TargetFn, targets: Frame, ts: real, dt: real, last: Frame): (r: (Frame, Frame))
    requires ts != 0.0 ==> Covers(propose(ts, dt, targets), last)
    ensures ts == 0.0 ==> r.0 == propose(ts, dt, targets) && r.1 == targets
    ensures ts != 0.0 ==> r.1 == propose(ts, dt, targets)
    ensures ts != 0.0 ==> SameShape(r.0, last)
    ensures ts != 0.0 ==> forall i, j :: 0 <= i < |last| && 0 <= j < |last[i]| ==>
              r.0[i][j] == StepToward(last[i][j], r.1[i][j], Velocity * dt)
  {
    var next := propose(ts, dt, targets);
    if ts == 0.0 then
      (next, targets)
    else
      var frame := seq(|last|, i requires 0 <= i < |last| =>
                     seq(|last[i]|, j requires 0 <= j < |last[i]| => StepToward(last[i][j], next[i][j], Velocity * dt)));
      (frame, next)
  }

  /** After the first tick, with a non-negative time delta, no ball overshoots
      its target: each gets no farther from it, moves at most `Velocity * dt`,
      and lands exactly on it when it was within reach. */
  lemma TargetedNoOvershoot(propose: TargetFn, targets: Frame, ts: real, dt: real, last: Frame, i: nat, j: nat)
    requires ts != 0.0 && 0.0 <= dt
    requires Covers(propose(ts, dt, targets), last)
    requires i < |last| && j < |last[i]|
    ensures var r := TargetedFrame(propose, targets, ts, dt, last);
            var target := propose(ts, dt, targets)[i][j];
            && Abs(r.0[i][j] - target) <= Abs(last[i][j] - target)
            && Abs(r.0[i][j] - last[i][j]) <= Velocity * dt
            && (Abs(target - last[i][j]) <= Velocity * dt ==> r.0[i][j] == target)
  {
    assert 0.0 <= Velocity * dt;
  }
}
