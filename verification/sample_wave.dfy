/** The sample animation: every row follows the same triangle wave between a
    top and a bottom position, each row a fixed fraction of a period behind
    the previous one, so the grid shows a diagonal wave. */
module SampleWave {
  import opened Frames
  import opened Ranges
  import Scheduler

  const Top: real := -30000.0
  const Bottom: real := -50000.0
  const Period: real := 20.0

  /** Triangle wave of period `period`: from `top` down to `bottom` over the
      first half of each period and back up over the second half. */
  function Triangle(top: real, bottom: real, period: real, t: real): (r: real)
    requires period != 0.0
    ensures 0.0 < period && 0.0 <= t ==> Min(top, bottom) <= r <= Max(top, bottom)
  {
    var progress := t / period - Truncate(t / period) as real;
    assert 0.0 < period && 0.0 <= t ==> 0.0 <= t / period && 0.0 <= progress < 1.0;
    if progress < 0.5 then
      MapRangeWithin(0.0, 0.5, top, bottom, progress);
      MapRange(0.0, 0.5, top, bottom, progress)
    else
      MapRangeWithin(0.5, 1.0, bottom, top, progress);
      MapRange(0.5, 1.0, bottom, top, progress)
  }

  lemma DivCancel(a: real, p: real)
    requires p != 0.0
    ensures (a * p) / p == a
  {
  }

  lemma DivShift(t: real, p: real)
    requires p != 0.0
    ensures (t + p) / p == t / p + 1.0
  {
    assert (t + p) / p == t / p + p / p;
    assert p / p == 1.0;
  }

  /** The wave at a time `n + x` periods in, for a whole `n` and a fraction `x`. */
  lemma TriangleAt(top: real, bottom: real, period: real, t: real, n: nat, x: real)
    requires period > 0.0 && 0.0 <= x < 1.0 && t / period == n as real + x
    ensures Triangle(top, bottom, period, t) ==
              if x < 0.5 then MapRange(0.0, 0.5, top, bottom, x) else MapRange(0.5, 1.0, bottom, top, x)
  {
    assert Truncate(n as real + x) == n;
  }

  /** At the start of every period the wave is at `top`; half a period later
      it is at `bottom`. */
  lemma TriangleEndpoints(top: real, bottom: real, period: real, n: nat)
    requires period > 0.0
    ensures Triangle(top, bottom, period, n as real * period) == top
    ensures Triangle(top, bottom, period, (n as real + 0.5) * period) == bottom
  {
    DivCancel(n as real, period);
    assert (n as real * period) / period == n as real + 0.0;
    TriangleAt(top, bottom, period, n as real * period, n, 0.0);
    DivCancel(n as real + 0.5, period);
    TriangleAt(top, bottom, period, (n as real + 0.5) * period, n, 0.5);
  }

  /** For non-negative times the wave repeats after one period. */
  lemma TrianglePeriodic(top: real, bottom: real, period: real, t: real)
    requires period > 0.0 && t >= 0.0
    ensures Triangle(top, bottom, period, t + period) == Triangle(top, bottom, period, t)
  {
    var x := t / period;
    assert x >= 0.0;
    DivShift(t, period);
    assert Truncate(x + 1.0) == Truncate(x) + 1;
  }

  /** The time at which row `row` samples the wave: each row is half a period
      divided by the row count behind the previous one. */
  function RowTime(rows: nat, ts: real, row: nat): real
    requires rows > 0
  {
    ts + (Period / rows as real / 2.0) * row as real
  }

  /** The sample animation's frame: `last` with every cell of the
      `rows` by `cols` grid set to its row's wave value. */
  function WaveFrame(rows: nat, cols: nat, ts: real, last: Frame): (f: Frame)
    requires rows > 0 && Spans(last, rows, cols)
    ensures SameShape(f, last)
    ensures forall i, j :: 0 <= i < rows && 0 <= j < cols ==>
              f[i][j] == Triangle(Top, Bottom, Period, RowTime(rows, ts, i))
    ensures forall i, j, k :: 0 <= i < rows && 0 <= j < cols && 0 <= k < cols ==> f[i][j] == f[i][k]
    ensures forall i, j :: (0 <= i < |last| && 0 <= j < |last[i]| && !(i < rows && j < cols)) ==>
              f[i][j] == last[i][j]
  {
    seq(|last|, i requires 0 <= i < |last| =>
      seq(|last[i]|, j requires 0 <= j < |last[i]| =>
        if i < rows && j < cols then Triangle(Top, Bottom, Period, RowTime(rows, ts, i)) else last[i][j]))
  }

  /** From time 0 on, every animated ball stays between the wave's bottom and
      top, well inside the travel range. */
  lemma WaveBounds(rows: nat, cols: nat, ts: real, last: Frame)
    requires rows > 0 && Spans(last, rows, cols) && ts >= 0.0
    ensures forall i, j :: 0 <= i < rows && 0 <= j < cols ==>
              Bottom <= WaveFrame(rows, cols, ts, last)[i][j] <= Top && InTravel(WaveFrame(rows, cols, ts, last)[i][j])
  {
    forall i | 0 <= i < rows
      ensures Bottom <= Triangle(Top, Bottom, Period, RowTime(rows, ts, i)) <= Top
    {
      assert RowTime(rows, ts, i) >= 0.0;
    }
  }

  /** Row 0 is at the top at time 0 and at the midpoint -40000 a quarter
      period later; on a two-row grid, row 1 is a quarter period ahead. */
  lemma WaveFixedPoints(rows: nat, cols: nat, last: Frame)
    requires rows > 0 && Spans(last, rows, cols)
    ensures forall j :: 0 <= j < cols ==> WaveFrame(rows, cols, 0.0, last)[0][j] == -30000.0
    ensures forall j :: 0 <= j < cols ==> WaveFrame(rows, cols, 5.0, last)[0][j] == -40000.0
    ensures rows == 2 ==> forall j :: 0 <= j < cols ==> WaveFrame(rows, cols, 0.0, last)[1][j] == -40000.0
  {
    TriangleEndpoints(Top, Bottom, Period, 0);
    assert RowTime(rows, 0.0, 0) == 0.0;
    assert RowTime(rows, 5.0, 0) == 5.0;
    assert Truncate(5.0 / Period) == 0;
    if rows == 2 {
      assert RowTime(rows, 0.0, 1) == 5.0;
    }
  }

  /** The sample animation as the scheduler drives it; it keeps no state. */
  function WaveAnimator(rows: nat, cols: nat): (a: Scheduler.Animator<()>)
    requires rows > 0
    ensures a.rows == rows && a.cols == cols
    ensures forall s, ts, dt, f, d :: IsGrid(f, rows, cols) ==>
              && a.inv(s) && a.step.requires(s, ts, dt, f, d)
              && a.step(s, ts, dt, f, d) == (Next(WaveFrame(rows, cols, ts, f)), s)
  {
    Scheduler.Animator(rows, cols, s => true,
      (s: (), ts: real, dt: real, f: Frame, d: Draw) requires IsGrid(f, rows, cols) =>
        (Next(WaveFrame(rows, cols, ts, f)), s))
  }

  /** The sample animation meets the animation contract and never ends. */
  lemma WaveWellFormed(rows: nat, cols: nat)
    requires rows > 0
    ensures Scheduler.WellFormed(WaveAnimator(rows, cols))
    ensures forall s, ts, dt, f, d :: IsGrid(f, rows, cols) ==> WaveAnimator(rows, cols).step(s, ts, dt, f, d).0.Next?
  {
    var a := WaveAnimator(rows, cols);
    forall s, ts, dt, f, d | a.inv(s) && IsGrid(f, rows, cols)
      ensures a.step.requires(s, ts, dt, f, d)
      ensures a.inv(a.step(s, ts, dt, f, d).1)
      ensures a.step(s, ts, dt, f, d).0.Next? && IsGrid(a.step(s, ts, dt, f, d).0.frame, rows, cols)
    {
      var g := WaveFrame(rows, cols, ts, f);
      assert IsGrid(g, rows, cols);
    }
  }
}
