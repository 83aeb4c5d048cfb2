/** The animator loop: a priming call at time zero, then one call per clock
    tick with the elapsed time since the loop started and the time since the
    previous tick, applying every frame to the rig until the animation
    signals that it is over. Clock readings and random draws are inputs. */
module Scheduler {
  import opened Frames
  import opened Sculpture

  /** An animation as the scheduler drives it: the grid size, the invariant
      its private state keeps, and its step (state, timestamp, time delta,
      last frame, this tick's random draws) to (outcome, next state). */
  datatype Animator<!S> = Animator(rows: nat, cols: nat, inv: S -> bool,
                                   step: (S, real, real, Frame, Draw) --> (Outcome, S))

  /** The animation contract: from a state satisfying the invariant and a
      frame of the grid's size, the step is defined, keeps the invariant,
      and any frame it returns has the grid's size. */
  ghost predicate WellFormed<S(!new)>(a: Animator<S>) {
    forall s, ts, dt, f, d :: a.inv(s) && IsGrid(f, a.rows, a.cols) ==>
      && a.step.requires(s, ts, dt, f, d)
      && a.inv(a.step(s, ts, dt, f, d).1)
      && (a.step(s, ts, dt, f, d).0.Next? ==> IsGrid(a.step(s, ts, dt, f, d).0.frame, a.rows, a.cols))
  }

  /** Two readings per loop iteration: when the tick's timestamp is taken, and
      when the rig applies the tick's frame. */
  datatype TickTime = TickTime(read: real, applied: real)

  /** All clock readings of one run: when the priming frame is applied, when
      the loop starts, and those of each iteration. */
  datatype Clock = Clock(primed: real, start: real, ticks: seq<TickTime>)

  /** The reading at which frame k is applied; frame 0 is the priming frame. */
  function ApplyTime(c: Clock, k: nat): real
    requires k <= |c.ticks|
  {
    if k == 0 then c.primed else c.ticks[k - 1].applied
  }

  /** Successive frames are applied at strictly later readings. */
  predicate AppliesAdvance(c: Clock) {
    forall k :: 1 <= k <= |c.ticks| ==> ApplyTime(c, k - 1) < ApplyTime(c, k)
  }

  /** The time the rig measures since the previous frame when applying frame k. */
  function ElapsedAt(rig0: Rig, c: Clock, k: nat): Option<real>
    requires k <= |c.ticks|
  {
    if k == 0 then Elapsed(rig0, c.primed) else Some(ApplyTime(c, k) - ApplyTime(c, k - 1))
  }

  /** How many entries of a trace had their frame applied: all but a final Terminal. */
  function Applied<S>(trace: seq<Entry<S>>): nat {
    if |trace| > 0 && trace[|trace| - 1].outcome.Terminal? then |trace| - 1 else |trace|
  }

  /** One call to the animation: its timestamp and time delta, the rig
      positions it was given, the state it started from, what it returned and
      the state it left. */
  datatype Entry<S> = Entry(timestamp: real, dt: real, seen: Frame, before: S, outcome: Outcome, after: S)

  /** Entry `e` is what call number k of `a` returns. */
  ghost predicate Made<S(!new)>(a: Animator<S>, rand: nat -> Draw, k: nat, e: Entry<S>) {
    && a.inv(e.before) && IsGrid(e.seen, a.rows, a.cols)
    && a.step.requires(e.before, e.timestamp, e.dt, e.seen, rand(k))
    && (e.outcome, e.after) == a.step(e.before, e.timestamp, e.dt, e.seen, rand(k))
  }

  /** Call k + 1 follows call k: call k returned a frame, and call k + 1
      starts from the state call k left and sees exactly that frame. */
  ghost predicate Chained<S>(trace: seq<Entry<S>>, k: nat)
    requires k + 1 < |trace|
  {
    && trace[k].outcome.Next?
    && trace[k + 1].seen == trace[k].outcome.frame
    && trace[k + 1].before == trace[k].after
  }

  /** Loop call k >= 1 is timed by the k-th loop reading: its timestamp is
      that reading minus the loop start, and its time delta is 0 for the first
      loop call and the difference from the previous timestamp afterwards. */
  ghost predicate Timed<S>(clock: Clock, trace: seq<Entry<S>>, k: nat)
    requires 1 <= k < |trace| && k <= |clock.ticks|
  {
    && trace[k].timestamp == clock.ticks[k - 1].read - clock.start
    && trace[k].dt == if k == 1 then 0.0 else trace[k].timestamp - trace[k - 1].timestamp
  }

  /** The call protocol of the scheduler: a priming call at (0, 0) on the
      rig's initial positions, then one call per loop reading, each starting
      where the previous one left off; every call but the last returned a frame. */
  ghost predicate Protocol<S(!new)>(a: Animator<S>, s0: S, rig0: Rig, clock: Clock, rand: nat -> Draw, trace: seq<Entry<S>>) {
    && 1 <= |trace| <= |clock.ticks| + 1
    && trace[0].timestamp == 0.0 && trace[0].dt == 0.0
    && trace[0].before == s0 && trace[0].seen == rig0.positions
    && (forall k :: 0 <= k < |trace| ==> Made(a, rand, k, trace[k]))
    && (forall k :: 1 <= k < |trace| ==> Timed(clock, trace, k))
    && (forall k :: 0 <= k < |trace| - 1 ==> Chained(trace, k))
  }

  /** The loop's clock readings never go backwards. */
  predicate ReadsAdvance(c: Clock) {
    forall k :: 1 <= k < |c.ticks| ==> c.ticks[k - 1].read <= c.ticks[k].read
  }

  /** In a run on a clock that never goes backwards, call k is made by the
      animation with a non-negative time delta, and every call after the
      priming one starts from the state and the frame the previous call left. */
  lemma CallFollows<S(!new)>(a: Animator<S>, s0: S, rig0: Rig, clock: Clock, rand: nat -> Draw,
                             trace: seq<Entry<S>>, k: nat)
    requires Protocol(a, s0, rig0, clock, rand, trace) && ReadsAdvance(clock)
    requires k < |trace|
    ensures Made(a, rand, k, trace[k])
    ensures trace[k].dt >= 0.0
    ensures k == 0 ==> trace[k].timestamp == 0.0 && trace[k].before == s0 && trace[k].seen == rig0.positions
    ensures k > 0 ==> && trace[k - 1].outcome.Next?
                      && trace[k].seen == trace[k - 1].outcome.frame
                      && trace[k].before == trace[k - 1].after
  {
    if k > 0 {
      assert Chained(trace, k - 1);
      assert Timed(clock, trace, k);
      if k > 1 {
        assert Timed(clock, trace, k - 1);
      }
    }
  }

  /** The priming call of `a` from `s0` returns a frame, and `P` holds of
      that frame and the state it leaves, whatever positions the rig had. */
  ghost predicate Primes<S(!new)>(a: Animator<S>, s0: S, P: (Frame, S) -> bool) {
    forall f, d :: IsGrid(f, a.rows, a.cols) && a.step.requires(s0, 0.0, 0.0, f, d) ==>
      a.step(s0, 0.0, 0.0, f, d).0.Next? && P(a.step(s0, 0.0, 0.0, f, d).0.frame, a.step(s0, 0.0, 0.0, f, d).1)
  }

  /** Every call of `a` with a non-negative time delta, on a frame and a
      state of which `P` holds, returns a frame, and `P` holds of it and the
      state it leaves. */
  ghost predicate Preserves<S(!new)>(a: Animator<S>, P: (Frame, S) -> bool) {
    forall s, ts, dt, f, d :: a.inv(s) && IsGrid(f, a.rows, a.cols) && dt >= 0.0 && P(f, s) && a.step.requires(s, ts, dt, f, d) ==>
      a.step(s, ts, dt, f, d).0.Next? && P(a.step(s, ts, dt, f, d).0.frame, a.step(s, ts, dt, f, d).1)
  }

  /** An invariant `P` that the priming call establishes and every later call
      preserves holds of every call of a run on a clock that never goes
      backwards, and no call of such a run returns Terminal. */
  lemma {:induction false} RunKeeps<S(!new)>(a: Animator<S>, s0: S, rig0: Rig, clock: Clock, rand: nat -> Draw,
                                             trace: seq<Entry<S>>, P: (Frame, S) -> bool, k: nat)
    requires Protocol(a, s0, rig0, clock, rand, trace) && ReadsAdvance(clock)
    requires Primes(a, s0, P) && Preserves(a, P)
    requires k < |trace|
    ensures trace[k].outcome.Next? && P(trace[k].outcome.frame, trace[k].after)
  {
    CallFollows(a, s0, rig0, clock, rand, trace, k);
    if k > 0 {
      RunKeeps(a, s0, rig0, clock, rand, trace, P, k - 1);
    }
  }

  /** `warnings[k]` are exactly the deserved diagnostics for applying the
      frame of call k on top of the positions that call saw. */
  ghost predicate Diagnosed<S>(rig0: Rig, clock: Clock, trace: seq<Entry<S>>, warnings: seq<seq<Warning>>) {
    && |warnings| <= |trace| && |warnings| <= |clock.ticks| + 1
    && forall k :: 0 <= k < |warnings| ==>
         && trace[k].outcome.Next? && Covers(trace[k].seen, trace[k].outcome.frame)
         && NonZero(ElapsedAt(rig0, clock, k))
         && forall w :: w in warnings[k] <==>
              Justified(w, trace[k].outcome.frame, trace[k].seen, ElapsedAt(rig0, clock, k))
  }

  /** When every frame applied stays inside the travel range, the only
      diagnostics the rig can raise are speed warnings. */
  lemma OnlySpeedWarnings<S>(rig0: Rig, clock: Clock, trace: seq<Entry<S>>, warnings: seq<seq<Warning>>,
                             k: nat, w: Warning)
    requires Diagnosed(rig0, clock, trace, warnings) && k < |warnings|
    requires var f := trace[k].outcome.frame;
             forall i, j :: 0 <= i < |f| && 0 <= j < |f[i]| ==> InTravel(f[i][j])
    requires w in warnings[k]
    ensures w.TooFast?
  {
    var f := trace[k].outcome.frame;
    assert Justified(w, f, trace[k].seen, ElapsedAt(rig0, clock, k));
    assert InTravel(f[w.row][w.column]);
  }

  /** A loop call made according to the protocol extends a protocol trace. */
  lemma ProtocolExtend<S(!new)>(a: Animator<S>, s0: S, rig0: Rig, clock: Clock, rand: nat -> Draw,
                                trace: seq<Entry<S>>, e: Entry<S>)
    requires Protocol(a, s0, rig0, clock, rand, trace)
    requires |trace| <= |clock.ticks| && trace[|trace| - 1].outcome.Next?
    requires Made(a, rand, |trace|, e)
    requires e.timestamp == clock.ticks[|trace| - 1].read - clock.start
    requires e.dt == if |trace| == 1 then 0.0 else e.timestamp - trace[|trace| - 1].timestamp
    requires e.seen == trace[|trace| - 1].outcome.frame && e.before == trace[|trace| - 1].after
    ensures Protocol(a, s0, rig0, clock, rand, trace + [e])
  {
    var t := trace + [e];
    var n := |trace|;
    forall k | 0 <= k < |t|
      ensures Made(a, rand, k, t[k])
    {
      if k < n {
        assert t[k] == trace[k];
      }
    }
    forall k | 1 <= k < |t|
      ensures Timed(clock, t, k)
    {
      if k < n {
        assert Timed(clock, trace, k);
        assert t[k] == trace[k] && t[k - 1] == trace[k - 1];
      } else {
        assert t[k] == e && t[k - 1] == trace[n - 1];
      }
    }
    forall k | 0 <= k < |t| - 1
      ensures Chained(t, k)
    {
      if k + 1 < n {
        assert Chained(trace, k);
        assert t[k] == trace[k] && t[k + 1] == trace[k + 1];
      } else {
        assert t[k] == trace[n - 1] && t[k + 1] == e;
      }
    }
  }

  /** Applying the frame of the next call extends the matching diagnostics. */
  lemma DiagnosedExtend<S>(rig0: Rig, clock: Clock, trace: seq<Entry<S>>, warnings: seq<seq<Warning>>, ws: seq<Warning>)
    requires Diagnosed(rig0, clock, trace, warnings)
    requires |warnings| < |trace| && |warnings| <= |clock.ticks|
    requires trace[|warnings|].outcome.Next?
    requires Covers(trace[|warnings|].seen, trace[|warnings|].outcome.frame)
    requires NonZero(ElapsedAt(rig0, clock, |warnings|))
    requires forall w :: w in ws <==>
               Justified(w, trace[|warnings|].outcome.frame, trace[|warnings|].seen, ElapsedAt(rig0, clock, |warnings|))
    ensures Diagnosed(rig0, clock, trace, warnings + [ws])
  {
    var n := |warnings|;
    var ws' := warnings + [ws];
    assert forall k :: 0 <= k < n ==> ws'[k] == warnings[k];
  }

  /** Diagnostics matched against a trace still match when the trace grows. */
  lemma DiagnosedGrow<S>(rig0: Rig, clock: Clock, trace: seq<Entry<S>>, warnings: seq<seq<Warning>>, e: Entry<S>)
    requires Diagnosed(rig0, clock, trace, warnings)
    ensures Diagnosed(rig0, clock, trace + [e], warnings)
  {
    var t := trace + [e];
    assert forall k :: 0 <= k < |trace| ==> t[k] == trace[k];
  }

  /** The loop's state after k loop calls, each of which returned a frame
      that the rig applied. */
  ghost predicate Looping<S>(rows: nat, cols: nat, rig0: Rig, clock: Clock,
                             trace: seq<Entry<S>>, rig: Rig, warnings: seq<seq<Warning>>,
                             lastTime: Option<real>, k: nat) {
    && k <= |clock.ticks|
    && |trace| == k + 1 && |warnings| == k + 1
    && trace[k].outcome.Next?
    && lastTime == (if k == 0 then None else Some(trace[k].timestamp))
    && IsGrid(rig.positions, rows, cols) && rig.positions == trace[k].outcome.frame
    && rig.lastFrameTime == Some(ApplyTime(clock, k))
    && Diagnosed(rig0, clock, trace, warnings)
  }

  /** The loop has ended: its last call returned Terminal, which was not
      applied, or the clock readings ran out; every other frame was applied. */
  ghost predicate Stopped<S(!new)>(a: Animator<S>, s0: S, rig0: Rig, clock: Clock, rand: nat -> Draw,
                                   trace: seq<Entry<S>>, rig: Rig, warnings: seq<seq<Warning>>) {
    && Protocol(a, s0, rig0, clock, rand, trace)
    && (trace[|trace| - 1].outcome.Terminal? || |trace| == |clock.ticks| + 1)
    && |warnings| == Applied(trace) && |warnings| >= 1
    && Diagnosed(rig0, clock, trace, warnings)
    && rig.positions == trace[|warnings| - 1].outcome.frame
    && rig.lastFrameTime == Some(ApplyTime(clock, |warnings| - 1))
  }

  /** The rig applies loop frame k + 1 at a reading later than the previous
      frame's, and then holds exactly that frame. */
  lemma RigAdvance<S>(rows: nat, cols: nat, rig0: Rig, clock: Clock,
                      trace: seq<Entry<S>>, rig: Rig, warnings: seq<seq<Warning>>,
                      lastTime: Option<real>, k: nat, frame: Frame)
    requires AppliesAdvance(clock)
    requires Looping(rows, cols, rig0, clock, trace, rig, warnings, lastTime, k) && k < |clock.ticks|
    requires IsGrid(frame, rows, cols)
    ensures rig.lastFrameTime.Some? && clock.ticks[k].applied != rig.lastFrameTime.value
    ensures Covers(rig.positions, frame)
    ensures var r := SetBallPositions(rig, frame, clock.ticks[k].applied).0;
            r.positions == frame && r.lastFrameTime == Some(ApplyTime(clock, k + 1))
  {
    assert ApplyTime(clock, k) < ApplyTime(clock, k + 1);
  }

  /** The diagnostics of applying loop frame k + 1 are the deserved ones. */
  lemma WarningsAdvance<S>(rig0: Rig, clock: Clock, trace: seq<Entry<S>>, rig: Rig,
                           warnings: seq<seq<Warning>>, k: nat, e: Entry<S>)
    requires k < |clock.ticks| && |trace| == k + 1 && |warnings| == k + 1
    requires ApplyTime(clock, k) < ApplyTime(clock, k + 1)
    requires rig.lastFrameTime == Some(ApplyTime(clock, k))
    requires Diagnosed(rig0, clock, trace + [e], warnings)
    requires e.outcome.Next? && e.seen == rig.positions && Covers(rig.positions, e.outcome.frame)
    ensures Diagnosed(rig0, clock, trace + [e], warnings + [SetBallPositions(rig, e.outcome.frame, clock.ticks[k].applied).1])
  {
    var ws := SetBallPositions(rig, e.outcome.frame, clock.ticks[k].applied).1;
    assert Elapsed(rig, clock.ticks[k].applied) == ElapsedAt(rig0, clock, k + 1);
    DiagnosedExtend(rig0, clock, trace + [e], warnings, ws);
  }

  /** One iteration of the loop: read the clock, call the animation, and
      either stop on Terminal or apply the frame. */
  method Tick<S(!new)>(a: Animator<S>, s0: S, rig0: Rig, clock: Clock, rand: nat -> Draw,
                       trace: seq<Entry<S>>, rig: Rig, warnings: seq<seq<Warning>>,
                       lastTime: Option<real>, k: nat)
    returns (trace': seq<Entry<S>>, rig': Rig, warnings': seq<seq<Warning>>, lastTime': Option<real>, stop: bool)
    requires WellFormed(a) && AppliesAdvance(clock)
    requires Protocol(a, s0, rig0, clock, rand, trace)
    requires Looping(a.rows, a.cols, rig0, clock, trace, rig, warnings, lastTime, k) && k < |clock.ticks|
    ensures |trace'| > 0 && trace'[0] == trace[0]
    ensures stop ==> Stopped(a, s0, rig0, clock, rand, trace', rig', warnings')
    ensures !stop ==> Protocol(a, s0, rig0, clock, rand, trace')
    ensures !stop ==> Looping(a.rows, a.cols, rig0, clock, trace', rig', warnings', lastTime', k + 1)
  {
    var last := rig.positions;
    var ts := clock.ticks[k].read - clock.start;
    var dt := if lastTime.Some? then ts - lastTime.value else 0.0;
    var before := trace[k].after;
    assert Made(a, rand, k, trace[k]);
    var (o, s') := a.step(before, ts, dt, last, rand(k + 1));
    var e := Entry(ts, dt, last, before, o, s');
    ProtocolExtend(a, s0, rig0, clock, rand, trace, e);
    DiagnosedGrow(rig0, clock, trace, warnings, e);
    trace' := trace + [e];
    if o.Terminal? {
      rig', warnings', lastTime', stop := rig, warnings, lastTime, true;
      return;
    }
    RigAdvance(a.rows, a.cols, rig0, clock, trace, rig, warnings, lastTime, k, o.frame);
    assert ApplyTime(clock, k) < ApplyTime(clock, k + 1);
    WarningsAdvance(rig0, clock, trace, rig, warnings, k, e);
    var (r, ws) := SetBallPositions(rig, o.frame, clock.ticks[k].applied);
    rig', warnings', lastTime', stop := r, warnings + [ws], Some(ts), false;
  }

  /** The scheduler's loop, entered after the priming frame was applied. */
  method RunLoop<S(!new)>(a: Animator<S>, s0: S, rig0: Rig, clock: Clock, rand: nat -> Draw,
                          trace0: seq<Entry<S>>, rig0': Rig, warnings0: seq<seq<Warning>>)
    returns (trace: seq<Entry<S>>, rig: Rig, warnings: seq<seq<Warning>>)
    requires WellFormed(a) && AppliesAdvance(clock)
    requires Protocol(a, s0, rig0, clock, rand, trace0)
    requires Looping(a.rows, a.cols, rig0, clock, trace0, rig0', warnings0, None, 0)
    ensures |trace| > 0 && trace[0] == trace0[0]
    ensures Stopped(a, s0, rig0, clock, rand, trace, rig, warnings)
  {
    trace, rig, warnings := trace0, rig0', warnings0;
    var lastTime: Option<real> := None;
    var k := 0;
    while k < |clock.ticks|
      invariant Protocol(a, s0, rig0, clock, rand, trace)
      invariant Looping(a.rows, a.cols, rig0, clock, trace, rig, warnings, lastTime, k)
      invariant trace[0] == trace0[0]
    {
      var stop;
      trace, rig, warnings, lastTime, stop := Tick(a, s0, rig0, clock, rand, trace, rig, warnings, lastTime, k);
      if stop {
        return;
      }
      k := k + 1;
    }
  }

  /** Run animation `a` from state `s0` on `rig0`: the trace holds every call
      made, `warnings[k]` the diagnostics raised applying the frame of call k,
      and `crashed` reports a Terminal priming call, which leaves the rig with
      no frame to apply. The loop stops at the first Terminal, which is not
      applied, or when the clock readings run out. */
  method RunAnimation<S(!new)>(a: Animator<S>, s0: S, rig0: Rig, clock: Clock, rand: nat -> Draw)
    returns (trace: seq<Entry<S>>, rig: Rig, warnings: seq<seq<Warning>>, crashed: bool)
    requires WellFormed(a) && a.inv(s0) && IsGrid(rig0.positions, a.rows, a.cols)
    requires rig0.lastFrameTime.Some? ==> rig0.lastFrameTime.value < clock.primed
    requires AppliesAdvance(clock)
    ensures Protocol(a, s0, rig0, clock, rand, trace)
    ensures crashed <==> trace[0].outcome.Terminal?
    ensures crashed ==> |trace| == 1 && rig == rig0 && warnings == []
    ensures trace[|trace| - 1].outcome.Terminal? || |trace| == |clock.ticks| + 1
    ensures |warnings| == Applied(trace)
    ensures Diagnosed(rig0, clock, trace, warnings)
    ensures !crashed ==> rig.positions == trace[|warnings| - 1].outcome.frame
    ensures !crashed ==> rig.lastFrameTime == Some(ApplyTime(clock, |warnings| - 1))
  {
    var (o0, s1) := a.step(s0, 0.0, 0.0, rig0.positions, rand(0));
    trace := [Entry(0.0, 0.0, rig0.positions, s0, o0, s1)];
    assert Made(a, rand, 0, trace[0]);
    if o0.Terminal? {
      rig, warnings, crashed := rig0, [], true;
      return;
    }
    var (rig1, ws0) := SetBallPositions(rig0, o0.frame, clock.primed);
    DiagnosedExtend(rig0, clock, trace, [], ws0);
    trace, rig, warnings := RunLoop(a, s0, rig0, clock, rand, trace, rig1, [ws0]);
    crashed := false;
  }
}
