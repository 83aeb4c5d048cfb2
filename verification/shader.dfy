/** Shader-style animations: the frame is assembled by asking a per-cell
    position function for every ball, independently of its neighbours. A cell
    may keep private state from tick to tick; a stateless strategy uses the
    unit type for it. */
module Shader {
  import opened Frames

  /** (row, column, timestamp, time delta, last position, this cell's state)
      to (next position, or None when undefined; this cell's next state). */
  type CellFn<!S> = (nat, nat, real, real, real, S) -> (Option<real>, S)

  /** The result of every cell's position function, row by row. */
  function Evaluate<S>(rows: nat, cols: nat, cell: CellFn<S>, states: seq<seq<S>>,
                       ts: real, dt: real, last: Frame): (g: seq<seq<(Option<real>, S)>>)
    requires Spans(last, rows, cols)
    requires IsGrid(states, rows, cols)
    ensures IsGrid(g, rows, cols)
    ensures forall i, j :: 0 <= i < rows && 0 <= j < cols ==> g[i][j] == cell(i, j, ts, dt, last[i][j], states[i][j])
  {
    seq(rows, i requires 0 <= i < rows =>
      seq(cols, j requires 0 <= j < cols => cell(i, j, ts, dt, last[i][j], states[i][j])))
  }

  /** The state half of every evaluated cell. */
  function NextStates<S>(g: seq<seq<(Option<real>, S)>>): (s: seq<seq<S>>)
    ensures SameShape(s, g)
    ensures forall i, j :: 0 <= i < |g| && 0 <= j < |g[i]| ==> s[i][j] == g[i][j].1
  {
    seq(|g|, i requires 0 <= i < |g| => seq(|g[i]|, j requires 0 <= j < |g[i]| => g[i][j].1))
  }

  /** Some evaluated cell had no defined position. */
  predicate AnyUndefined<S>(g: seq<seq<(Option<real>, S)>>) {
    exists i, j :: 0 <= i < |g| && 0 <= j < |g[i]| && g[i][j].0.None?
  }

  /** The positions of a grid in which every cell is defined. */
  function Positions<S>(g: seq<seq<(Option<real>, S)>>): (f: Frame)
    requires !AnyUndefined(g)
    ensures SameShape(f, g)
    ensures forall i, j :: 0 <= i < |g| && 0 <= j < |g[i]| ==> g[i][j].0 == Some(f[i][j])
  {
    seq(|g|, i requires 0 <= i < |g| => seq(|g[i]|, j requires 0 <= j < |g[i]| => g[i][j].0.value))
  }

  /** One tick of a shader-style animation over a `rows` by `cols` grid: every
      cell is evaluated, each cell's state is replaced by what its own call
      returned, and the frame is Terminal exactly when some cell was undefined. */
  function ShaderFrame<S>(rows: nat, cols: nat, cell: CellFn<S>, states: seq<seq<S>>,
                          ts: real, dt: real, last: Frame): (r: (Outcome, seq<seq<S>>))
    requires Spans(last, rows, cols)
    requires IsGrid(states, rows, cols)
    ensures IsGrid(r.1, rows, cols)
    ensures forall i, j :: 0 <= i < rows && 0 <= j < cols ==>
              r.1[i][j] == cell(i, j, ts, dt, last[i][j], states[i][j]).1
    ensures r.0.Terminal? <==>
              exists i, j :: 0 <= i < rows && 0 <= j < cols && cell(i, j, ts, dt, last[i][j], states[i][j]).0.None?
    ensures r.0.Next? ==> IsGrid(r.0.frame, rows, cols)
    ensures r.0.Next? ==> forall i, j :: 0 <= i < rows && 0 <= j < cols ==>
              cell(i, j, ts, dt, last[i][j], states[i][j]).0 == Some(r.0.frame[i][j])
  {
    var g := Evaluate(rows, cols, cell, states, ts, dt, last);
    if AnyUndefined(g) then (Terminal, NextStates(g)) else (Next(Positions(g)), NextStates(g))
  }
}
