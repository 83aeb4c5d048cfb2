/** The sample targeted animation: six two-level patterns (alternating rows,
    a checkerboard and alternating columns, each with its inverse) proposed in
    turn, three seconds each, while the targeted base moves the balls toward
    the current one. */
module PatternCycler {
  import opened Frames
  import opened Ranges
  import Targeted
  import Scheduler
  import Sculpture

  const Offset: real := -20000.0
  const Distance: real := 2000.0
  /** The upper and lower level of every pattern. */
  const Top: real := Offset
  const Bottom: real := Top - Distance
  /** How long each pattern is proposed. */
  const PatternSeconds: real := 3.0

  /** Rows 0, 2, 4, ... at `a`, the others at `b`. */
  function AlternatingRows(rows: nat, cols: nat, a: real, b: real): (g: Frame)
    ensures IsGrid(g, rows, cols)
  {
    seq(rows, i => seq(cols, j => if i % 2 == 0 then a else b))
  }

  /** `a` on the cells whose row and column are both even or both odd, `b`
      elsewhere. */
  function Checkerboard(rows: nat, cols: nat, a: real, b: real): (g: Frame)
    ensures IsGrid(g, rows, cols)
  {
    seq(rows, i => seq(cols, j =>
      if i % 2 == 0 then (if j % 2 == 0 then a else b)
      else (if j % 2 == 0 then b else a)))
  }

  /** Columns 0, 2, 4, ... at `a`, the others at `b`. */
  function AlternatingColumns(rows: nat, cols: nat, a: real, b: real): (g: Frame)
    ensures IsGrid(g, rows, cols)
  {
    seq(rows, i => seq(cols, j => if j % 2 == 0 then a else b))
  }

  /** The six patterns, in the order they are proposed. */
  function Patterns(rows: nat, cols: nat): (ps: seq<Frame>)
    ensures |ps| == 6
    ensures forall n :: 0 <= n < 6 ==> IsGrid(ps[n], rows, cols)
  {
    [ AlternatingRows(rows, cols, Top, Bottom), AlternatingRows(rows, cols, Bottom, Top),
      Checkerboard(rows, cols, Top, Bottom), Checkerboard(rows, cols, Bottom, Top),
      AlternatingColumns(rows, cols, Top, Bottom), AlternatingColumns(rows, cols, Bottom, Top) ]
  }

  /** The level opposite to `p`. */
  function Opposite(p: real): real {
    if p == Top then Bottom else Top
  }

  /** Every cell of every pattern is at one of the two levels, both well
      inside the travel range. */
  lemma PatternsTwoLevel(rows: nat, cols: nat, n: nat, i: nat, j: nat)
    requires n < 6 && i < rows && j < cols
    ensures Patterns(rows, cols)[n][i][j] == Top || Patterns(rows, cols)[n][i][j] == Bottom
    ensures InTravel(Patterns(rows, cols)[n][i][j])
  {
  }

  /** Which cells are up: the first pattern raises the even rows, the third
      the cells whose row and column add up to an even number, the fifth the
      even columns. */
  lemma PatternsLayout(rows: nat, cols: nat, i: nat, j: nat)
    requires i < rows && j < cols
    ensures Patterns(rows, cols)[0][i][j] == Top <==> i % 2 == 0
    ensures Patterns(rows, cols)[2][i][j] == Top <==> (i + j) % 2 == 0
    ensures Patterns(rows, cols)[4][i][j] == Top <==> j % 2 == 0
  {
    assert Top != Bottom;
    var p2 := Patterns(rows, cols)[2];
    assert p2 == Checkerboard(rows, cols, Top, Bottom);
    assert (i + j) % 2 == 0 <==> i % 2 == j % 2;
  }

  /** Each odd-numbered pattern is the inverse of the one before it: every
      ball that is up in one is down in the other. */
  lemma PatternsInverse(rows: nat, cols: nat, n: nat, i: nat, j: nat)
    requires n < 3 && i < rows && j < cols
    ensures Patterns(rows, cols)[2 * n + 1][i][j] == Opposite(Patterns(rows, cols)[2 * n][i][j])
    ensures Patterns(rows, cols)[2 * n][i][j] != Patterns(rows, cols)[2 * n + 1][i][j]
  {
    assert Top != Bottom;
  }

  /** Which pattern is proposed at `ts`: the whole number of three-second
      periods since the start, truncated toward zero, modulo the six patterns. */
  function PatternIndex(ts: real): (n: nat)
    ensures n < 6
  {
    Truncate(ts / PatternSeconds) % 6
  }

  /** The schedule: during seconds [3k, 3k + 3) pattern k mod 6 is proposed. */
  lemma PatternSchedule(ts: real, k: nat)
    requires 3.0 * k as real <= ts < 3.0 * k as real + 3.0
    ensures PatternIndex(ts) == k % 6
  {
    assert k as real <= ts / PatternSeconds < k as real + 1.0;
  }

  /** Since the index is truncated toward zero, the first pattern is also
      proposed for timestamps in (-3, 0). */
  lemma PatternScheduleNearZero(ts: real)
    requires -3.0 < ts < 3.0
    ensures PatternIndex(ts) == 0
  {
  }

  /** The proposal of the sample targeted animation: the scheduled pattern,
      whatever the time delta and the current targets. */
  function NextTargets(rows: nat, cols: nat, ts: real, dt: real, current: Frame): (t: Frame)
    ensures IsGrid(t, rows, cols)
    ensures t in Patterns(rows, cols)
    ensures forall i, j :: 0 <= i < rows && 0 <= j < cols ==> Bottom <= t[i][j] <= Top
  {
    var ps := Patterns(rows, cols);
    var t := ps[PatternIndex(ts)];
    forall i, j | 0 <= i < rows && 0 <= j < cols
      ensures Bottom <= t[i][j] <= Top
    {
      PatternsTwoLevel(rows, cols, PatternIndex(ts), i, j);
    }
    t
  }

  /** During seconds [3k, 3k + 3) the proposal is pattern k mod 6, whatever
      the time delta and the current targets. */
  lemma NextTargetsSchedule(rows: nat, cols: nat, ts: real, dt: real, current: Frame, k: nat)
    requires 3.0 * k as real <= ts < 3.0 * k as real + 3.0
    ensures NextTargets(rows, cols, ts, dt, current) == Patterns(rows, cols)[k % 6]
  {
    PatternSchedule(ts, k);
  }

  /** The proposal as a strategy for the targeted base. */
  function Proposal(rows: nat, cols: nat): Targeted.TargetFn {
    (ts: real, dt: real, current: Frame) => NextTargets(rows, cols, ts, dt, current)
  }

  /** The sample targeted animation as the scheduler drives it; its state is
      the stored target grid. */
  function CyclerAnimator(rows: nat, cols: nat): (a: Scheduler.Animator<Frame>)
    ensures a.rows == rows && a.cols == cols
    ensures forall t :: a.inv(t) <==> IsGrid(t, rows, cols)
    ensures forall t, ts, dt, f, d :: IsGrid(t, rows, cols) && IsGrid(f, rows, cols) ==>
              && a.step.requires(t, ts, dt, f, d)
              && a.step(t, ts, dt, f, d).0 == Next(Targeted.TargetedFrame(Proposal(rows, cols), t, ts, dt, f).0)
              && a.step(t, ts, dt, f, d).1 == Targeted.TargetedFrame(Proposal(rows, cols), t, ts, dt, f).1
  {
    Scheduler.Animator(rows, cols, t => IsGrid(t, rows, cols),
      (t: Frame, ts: real, dt: real, f: Frame, d: Draw)
        requires IsGrid(t, rows, cols) && IsGrid(f, rows, cols) =>
        var r := Targeted.TargetedFrame(Proposal(rows, cols), t, ts, dt, f);
        (Next(r.0), r.1))
  }

  /** The sample targeted animation meets the animation contract and never ends. */
  lemma CyclerWellFormed(rows: nat, cols: nat)
    ensures Scheduler.WellFormed(CyclerAnimator(rows, cols))
    ensures forall t, ts, dt, f, d :: IsGrid(t, rows, cols) && IsGrid(f, rows, cols) ==>
              CyclerAnimator(rows, cols).step(t, ts, dt, f, d).0.Next?
  {
    var a := CyclerAnimator(rows, cols);
    forall t, ts, dt, f, d | a.inv(t) && IsGrid(f, rows, cols)
      ensures a.step.requires(t, ts, dt, f, d)
      ensures a.inv(a.step(t, ts, dt, f, d).1)
      ensures a.step(t, ts, dt, f, d).0.Next? && IsGrid(a.step(t, ts, dt, f, d).0.frame, rows, cols)
    {
      var p := NextTargets(rows, cols, ts, dt, t);
      assert Covers(p, f);
    }
  }

  /** The priming call hands back the first pattern itself and leaves the
      stored targets at their initial zeros; on a 2 by 2 grid that is the top
      row up and the bottom row down. */
  lemma CyclerFirstFrame(rows: nat, cols: nat, f: Frame, d: Draw)
    requires IsGrid(f, rows, cols)
    ensures var r := CyclerAnimator(rows, cols).step(Targeted.InitialTargets(rows, cols), 0.0, 0.0, f, d);
            r == (Next(Patterns(rows, cols)[0]), Targeted.InitialTargets(rows, cols))
    ensures Patterns(2, 2)[0] == [[Top, Top], [Bottom, Bottom]]
  {
    PatternScheduleNearZero(0.0);
    var p := Patterns(2, 2)[0];
    assert p[0] == [Top, Top];
    assert p[1] == [Bottom, Bottom];
  }

  /** The band between the two pattern levels. */
  predicate InBand(p: real) {
    Bottom <= p <= Top
  }

  /** A frame with every cell in the band, and a stored target grid of the
      grid's size. */
  predicate Banded(rows: nat, cols: nat, frame: Frame, targets: Frame) {
    && IsGrid(targets, rows, cols) && IsGrid(frame, rows, cols)
    && forall i, j :: 0 <= i < rows && 0 <= j < cols ==> InBand(frame[i][j])
  }

  /** A tick with a non-negative time delta keeps every ball in the band:
      at timestamp 0 the frame is a pattern, and afterwards each ball moves
      from a position in the band toward a target in the band. */
  lemma CyclerStepBanded(rows: nat, cols: nat, t: Frame, ts: real, dt: real, f: Frame, d: Draw)
    requires IsGrid(t, rows, cols) && IsGrid(f, rows, cols) && dt >= 0.0
    requires ts != 0.0 ==> forall i, j :: 0 <= i < rows && 0 <= j < cols ==> InBand(f[i][j])
    ensures var r := CyclerAnimator(rows, cols).step(t, ts, dt, f, d);
            r.0.Next? && Banded(rows, cols, r.0.frame, r.1)
  {
    var p := NextTargets(rows, cols, ts, dt, t);
    assert Covers(p, f);
    var r := Targeted.TargetedFrame(Proposal(rows, cols), t, ts, dt, f);
    if ts != 0.0 {
      forall i, j | 0 <= i < rows && 0 <= j < cols
        ensures InBand(r.0[i][j])
      {
        assert 0.0 <= Targeted.Velocity * dt;
        assert r.0[i][j] == Targeted.StepToward(f[i][j], p[i][j], Targeted.Velocity * dt);
      }
    }
  }

  /** The invariant of a run of the sample targeted animation. */
  function BandedGrid(rows: nat, cols: nat): (Frame, Frame) -> bool {
    (f: Frame, t: Frame) => Banded(rows, cols, f, t)
  }

  /** The priming call puts every ball in the band, and every later call with
      a non-negative time delta keeps it there. */
  lemma CyclerKeepsBanded(rows: nat, cols: nat)
    ensures Scheduler.Primes(CyclerAnimator(rows, cols), Targeted.InitialTargets(rows, cols), BandedGrid(rows, cols))
    ensures Scheduler.Preserves(CyclerAnimator(rows, cols), BandedGrid(rows, cols))
  {
    var a, P, t0 := CyclerAnimator(rows, cols), BandedGrid(rows, cols), Targeted.InitialTargets(rows, cols);
    forall f, d | IsGrid(f, rows, cols) && a.step.requires(t0, 0.0, 0.0, f, d)
      ensures a.step(t0, 0.0, 0.0, f, d).0.Next?
      ensures P(a.step(t0, 0.0, 0.0, f, d).0.frame, a.step(t0, 0.0, 0.0, f, d).1)
    {
      CyclerStepBanded(rows, cols, t0, 0.0, 0.0, f, d);
    }
    forall t, ts, dt, f, d | a.inv(t) && IsGrid(f, rows, cols) && dt >= 0.0 && P(f, t) && a.step.requires(t, ts, dt, f, d)
      ensures a.step(t, ts, dt, f, d).0.Next? && P(a.step(t, ts, dt, f, d).0.frame, a.step(t, ts, dt, f, d).1)
    {
      CyclerStepBanded(rows, cols, t, ts, dt, f, d);
    }
  }

  /** Over a whole run on a clock that never goes backwards, every frame the
      sample targeted animation returns keeps every ball between the two
      pattern levels, well inside the travel range. */
  lemma CyclerRunBanded(rows: nat, cols: nat, rig0: Sculpture.Rig, clock: Scheduler.Clock,
                        rand: nat -> Draw, trace: seq<Scheduler.Entry<Frame>>, k: nat)
    requires Scheduler.Protocol(CyclerAnimator(rows, cols), Targeted.InitialTargets(rows, cols), rig0, clock, rand, trace)
    requires Scheduler.ReadsAdvance(clock)
    requires k < |trace|
    ensures trace[k].outcome.Next?
    ensures Banded(rows, cols, trace[k].outcome.frame, trace[k].after)
    ensures forall i, j :: 0 <= i < rows && 0 <= j < cols ==> InTravel(trace[k].outcome.frame[i][j])
  {
    CyclerKeepsBanded(rows, cols);
    Scheduler.RunKeeps(CyclerAnimator(rows, cols), Targeted.InitialTargets(rows, cols), rig0, clock, rand, trace,
                       BandedGrid(rows, cols), k);
  }

  /** In a run of the sample targeted animation the rig never reports a ball
      commanded above the top or beyond the range: at most speed warnings. */
  lemma CyclerOnlySpeedWarnings(rows: nat, cols: nat, rig0: Sculpture.Rig, clock: Scheduler.Clock, rand: nat -> Draw,
                                trace: seq<Scheduler.Entry<Frame>>, warnings: seq<seq<Sculpture.Warning>>,
                                k: nat, w: Sculpture.Warning)
    requires Scheduler.Protocol(CyclerAnimator(rows, cols), Targeted.InitialTargets(rows, cols), rig0, clock, rand, trace)
    requires Scheduler.ReadsAdvance(clock) && Scheduler.Diagnosed(rig0, clock, trace, warnings)
    requires k < |warnings| && w in warnings[k]
    ensures w.TooFast?
  {
    CyclerRunBanded(rows, cols, rig0, clock, rand, trace, k);
    Scheduler.OnlySpeedWarnings(rig0, clock, trace, warnings, k, w);
  }
}
