/** The rain animation: a shader-style animation in which every ball rests at
    the top until a random draw starts it falling, falls at its column's speed
    to the bottom, rises back at the same speed, and rests again. */
module Rain {
  import opened Frames
  import opened Ranges
  import Shader
  import Scheduler
  import Sculpture

  /** One ball's phase: resting at the top, falling, or rising. */
  datatype Drop = Idle | Falling | Rising

  const Top: real := 0.0
  const Bottom: real := -90000.0
  const BaseVelocity: real := 1500.0
  const ColumnSkew: real := 375.0

  /** The phase that follows `d` in the cycle Idle, Falling, Rising, Idle. */
  function Successor(d: Drop): Drop {
    match d
    case Idle => Falling
    case Falling => Rising
    case Rising => Idle
  }

  /** The speed of the balls in `column`: the last column moves at the base
      velocity and each column to its left is one skew step faster. */
  function FallVelocity(cols: nat, column: nat): (v: real)
    ensures column < cols ==> BaseVelocity <= v <= BaseVelocity + ColumnSkew * (cols - 1) as real
    ensures column + 1 == cols ==> v == BaseVelocity
    ensures column == 0 && cols > 0 ==> v == BaseVelocity + ColumnSkew * (cols - 1) as real
  {
    BaseVelocity + ColumnSkew * (cols as int - column as int - 1) as real
  }

  /** Moving one column to the right slows the balls by exactly one skew step. */
  lemma FallVelocityOrder(cols: nat, c1: nat, c2: nat)
    requires c1 < c2 < cols
    ensures FallVelocity(cols, c1) - FallVelocity(cols, c2) == ColumnSkew * (c2 - c1) as real
    ensures FallVelocity(cols, c1) > FallVelocity(cols, c2)
  {
  }

  /** On the sculpture's grid no ball is commanded faster than the rig allows. */
  lemma FallVelocityBelowMax(column: nat)
    requires column < ColumnCount
    ensures 0.0 < FallVelocity(ColumnCount, column) < MaxBallVelocity
  {
  }

  /** A ball's position agrees with its phase: it lies between the bottom and
      the top, and an idle ball is at the top. */
  predicate Settled(p: real, d: Drop) {
    Bottom <= p <= Top && (d.Idle? ==> p == Top)
  }

  /** One ball's step. At timestamp 0 every ball is sent to the top and keeps
      its phase. Otherwise an idle ball stays put and starts falling when its
      draw is 0; a falling ball moves down by its speed times `dt` and turns
      at the bottom; a rising ball moves up and comes to rest at the top. */
  function RainCell(cols: nat, column: nat, ts: real, dt: real, last: real, d: Drop, draw: int): (r: (real, Drop))
    ensures ts == 0.0 ==> r == (Top, d)
    ensures r.1 == d || r.1 == Successor(d)
    ensures ts != 0.0 && d.Idle? ==> r.0 == last && (r.1.Falling? <==> draw == 0)
    ensures ts != 0.0 && d.Falling? ==>
              && r.0 == Max(Bottom, last - FallVelocity(cols, column) * dt)
              && (r.1.Rising? <==> last - FallVelocity(cols, column) * dt <= Bottom)
    ensures ts != 0.0 && d.Rising? ==>
              && r.0 == Min(Top, last + FallVelocity(cols, column) * dt)
              && (r.1.Idle? <==> last + FallVelocity(cols, column) * dt >= Top)
  {
    if ts == 0.0 then (Top, d)
    else
      var v := FallVelocity(cols, column);
      match d
      case Idle => (last, if draw == 0 then Falling else Idle)
      case Falling =>
        var p := last - v * dt;
        if p <= Bottom then (Bottom, Rising) else (p, Falling)
      case Rising =>
        var p := last + v * dt;
        if p >= Top then (Top, Idle) else (p, Rising)
  }

  /** With a non-negative time delta a settled ball stays settled, a falling
      ball never moves up and a rising ball never moves down. */
  lemma RainCellSettled(cols: nat, column: nat, ts: real, dt: real, last: real, d: Drop, draw: int)
    requires column < cols && dt >= 0.0
    requires ts != 0.0 ==> Settled(last, d)
    ensures Settled(RainCell(cols, column, ts, dt, last, d, draw).0, RainCell(cols, column, ts, dt, last, d, draw).1)
    ensures ts != 0.0 && d.Falling? ==> RainCell(cols, column, ts, dt, last, d, draw).0 <= last
    ensures ts != 0.0 && d.Rising? ==> RainCell(cols, column, ts, dt, last, d, draw).0 >= last
  {
    var v := FallVelocity(cols, column);
    assert v * dt >= 0.0;
  }

  /** With a non-negative time delta a ball between the bottom and the top
      stays there, whatever its phase. */
  lemma RainCellInRange(cols: nat, column: nat, ts: real, dt: real, last: real, d: Drop, draw: int)
    requires column < cols && dt >= 0.0 && Bottom <= last <= Top
    ensures Bottom <= RainCell(cols, column, ts, dt, last, d, draw).0 <= Top
  {
    assert FallVelocity(cols, column) * dt >= 0.0;
  }

  /** The rain cell as a shader cell function; this tick's draws are fixed by `draw`. */
  function RainCellFn(cols: nat, draw: Draw): Shader.CellFn<Drop> {
    (i: nat, j: nat, ts: real, dt: real, last: real, d: Drop) =>
      var r := RainCell(cols, j, ts, dt, last, d, draw(i, j));
      (Some(r.0), r.1)
  }

  /** One tick of the rain animation over a `rows` by `cols` grid: the frame
      and the phases for the next tick. Every cell is defined, so the
      animation never ends by itself. */
  function RainFrame(rows: nat, cols: nat, states: seq<seq<Drop>>, ts: real, dt: real,
                     last: Frame, draw: Draw): (r: (Frame, seq<seq<Drop>>))
    requires Spans(last, rows, cols) && IsGrid(states, rows, cols)
    ensures IsGrid(r.0, rows, cols) && IsGrid(r.1, rows, cols)
    ensures forall i, j :: 0 <= i < rows && 0 <= j < cols ==>
              (r.0[i][j], r.1[i][j]) == RainCell(cols, j, ts, dt, last[i][j], states[i][j], draw(i, j))
  {
    var s := Shader.ShaderFrame(rows, cols, RainCellFn(cols, draw), states, ts, dt, last);
    assert s.0.Next?;
    (s.0.frame, s.1)
  }

  /** A grid of settled balls. */
  predicate AllSettled(rows: nat, cols: nat, frame: Frame, states: seq<seq<Drop>>) {
    && IsGrid(frame, rows, cols) && IsGrid(states, rows, cols)
    && forall i, j :: 0 <= i < rows && 0 <= j < cols ==> Settled(frame[i][j], states[i][j])
  }

  /** A tick with a non-negative time delta keeps every ball settled (at
      timestamp 0 it settles them whatever they were), so every ball stays in
      the sculpture's travel range. */
  lemma RainFrameSettled(rows: nat, cols: nat, states: seq<seq<Drop>>, ts: real, dt: real,
                         last: Frame, draw: Draw)
    requires IsGrid(last, rows, cols) && IsGrid(states, rows, cols) && dt >= 0.0
    requires ts != 0.0 ==> AllSettled(rows, cols, last, states)
    ensures AllSettled(rows, cols, RainFrame(rows, cols, states, ts, dt, last, draw).0,
                       RainFrame(rows, cols, states, ts, dt, last, draw).1)
    ensures forall i, j :: 0 <= i < rows && 0 <= j < cols ==>
              InTravel(RainFrame(rows, cols, states, ts, dt, last, draw).0[i][j])
  {
    var r := RainFrame(rows, cols, states, ts, dt, last, draw);
    forall i, j | 0 <= i < rows && 0 <= j < cols
      ensures Settled(r.0[i][j], r.1[i][j])
    {
      RainCellSettled(cols, j, ts, dt, last[i][j], states[i][j], draw(i, j));
    }
  }

  /** Every ball starts idle. */
  function NewRainStates(rows: nat, cols: nat): (s: seq<seq<Drop>>)
    ensures IsGrid(s, rows, cols)
    ensures forall i, j :: 0 <= i < rows && 0 <= j < cols ==> s[i][j] == Idle
  {
    Fill(rows, cols, Idle)
  }

  /** The rain animation as the scheduler drives it; its state is the grid of phases. */
  function RainAnimator(rows: nat, cols: nat): (a: Scheduler.Animator<seq<seq<Drop>>>)
    ensures a.rows == rows && a.cols == cols
    ensures forall s :: a.inv(s) <==> IsGrid(s, rows, cols)
    ensures forall s, ts, dt, f, d :: IsGrid(s, rows, cols) && IsGrid(f, rows, cols) ==>
              && a.step.requires(s, ts, dt, f, d)
              && a.step(s, ts, dt, f, d).0 == Next(RainFrame(rows, cols, s, ts, dt, f, d).0)
              && a.step(s, ts, dt, f, d).1 == RainFrame(rows, cols, s, ts, dt, f, d).1
  {
    Scheduler.Animator(rows, cols, s => IsGrid(s, rows, cols),
      (s: seq<seq<Drop>>, ts: real, dt: real, f: Frame, d: Draw)
        requires IsGrid(s, rows, cols) && IsGrid(f, rows, cols) =>
        var r := RainFrame(rows, cols, s, ts, dt, f, d);
        (Next(r.0), r.1))
  }

  /** The rain animation meets the animation contract and never ends. */
  lemma RainWellFormed(rows: nat, cols: nat)
    ensures Scheduler.WellFormed(RainAnimator(rows, cols))
    ensures forall s, ts, dt, f, d :: IsGrid(s, rows, cols) && IsGrid(f, rows, cols) ==>
              RainAnimator(rows, cols).step(s, ts, dt, f, d).0.Next?
  {
  }

  /** The invariant of a rain run: every ball settled. */
  function SettledGrid(rows: nat, cols: nat): (Frame, seq<seq<Drop>>) -> bool {
    (f: Frame, s: seq<seq<Drop>>) => AllSettled(rows, cols, f, s)
  }

  /** The priming call settles every ball, and every later call with a
      non-negative time delta keeps them settled. */
  lemma RainKeepsSettled(rows: nat, cols: nat)
    ensures Scheduler.Primes(RainAnimator(rows, cols), NewRainStates(rows, cols), SettledGrid(rows, cols))
    ensures Scheduler.Preserves(RainAnimator(rows, cols), SettledGrid(rows, cols))
  {
    var a, P := RainAnimator(rows, cols), SettledGrid(rows, cols);
    forall f, d | IsGrid(f, rows, cols) && a.step.requires(NewRainStates(rows, cols), 0.0, 0.0, f, d)
      ensures a.step(NewRainStates(rows, cols), 0.0, 0.0, f, d).0.Next?
      ensures P(a.step(NewRainStates(rows, cols), 0.0, 0.0, f, d).0.frame, a.step(NewRainStates(rows, cols), 0.0, 0.0, f, d).1)
    {
      RainFrameSettled(rows, cols, NewRainStates(rows, cols), 0.0, 0.0, f, d);
    }
    forall s, ts, dt, f, d | a.inv(s) && IsGrid(f, rows, cols) && dt >= 0.0 && P(f, s) && a.step.requires(s, ts, dt, f, d)
      ensures a.step(s, ts, dt, f, d).0.Next? && P(a.step(s, ts, dt, f, d).0.frame, a.step(s, ts, dt, f, d).1)
    {
      RainFrameSettled(rows, cols, s, ts, dt, f, d);
    }
  }

  /** Over a whole run started from idle balls, as long as the clock never
      goes backwards, every call returns a frame and every ball stays settled
      and inside the travel range. */
  lemma RainRunSettled(rows: nat, cols: nat, rig0: Sculpture.Rig, clock: Scheduler.Clock,
                       rand: nat -> Draw, trace: seq<Scheduler.Entry<seq<seq<Drop>>>>, k: nat)
    requires Scheduler.Protocol(RainAnimator(rows, cols), NewRainStates(rows, cols), rig0, clock, rand, trace)
    requires Scheduler.ReadsAdvance(clock)
    requires k < |trace|
    ensures trace[k].outcome.Next?
    ensures AllSettled(rows, cols, trace[k].outcome.frame, trace[k].after)
    ensures forall i, j :: 0 <= i < rows && 0 <= j < cols ==> InTravel(trace[k].outcome.frame[i][j])
  {
    RainKeepsSettled(rows, cols);
    Scheduler.RunKeeps(RainAnimator(rows, cols), NewRainStates(rows, cols), rig0, clock, rand, trace, SettledGrid(rows, cols), k);
  }

  /** In a run of the rain animation the rig never reports a ball commanded
      above the top or beyond the range: at most speed warnings. */
  lemma RainOnlySpeedWarnings(rows: nat, cols: nat, rig0: Sculpture.Rig, clock: Scheduler.Clock, rand: nat -> Draw,
                              trace: seq<Scheduler.Entry<seq<seq<Drop>>>>, warnings: seq<seq<Sculpture.Warning>>,
                              k: nat, w: Sculpture.Warning)
    requires Scheduler.Protocol(RainAnimator(rows, cols), NewRainStates(rows, cols), rig0, clock, rand, trace)
    requires Scheduler.ReadsAdvance(clock) && Scheduler.Diagnosed(rig0, clock, trace, warnings)
    requires k < |warnings| && w in warnings[k]
    ensures w.TooFast?
  {
    RainRunSettled(rows, cols, rig0, clock, rand, trace, k);
    Scheduler.OnlySpeedWarnings(rig0, clock, trace, warnings, k, w);
  }
}
