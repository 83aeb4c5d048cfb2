/** The data exchanged between the scheduler, the animations and the rig: a
    frame is a row-major grid of vertical ball positions in travel steps, where
    0 is the top of the sculpture and -MaxDistanceSteps the bottom. */
module Frames {

  /** Rig constants of the simulated sculpture. */
  const RowCount: nat := 10
  const ColumnCount: nat := 8
  const MaxDistanceSteps: real := 95000.0
  const MaxBallVelocity: real := 4500.0

  type Frame = seq<seq<real>>

  /** One random draw per cell (row, column), supplied from outside the model. */
  type Draw = (nat, nat) -> int

  datatype Option<+T> = None | Some(value: T)

  /** What an animation hands back each tick: the next frame, or the signal
      that the animation is over. */
  datatype Outcome = Next(frame: Frame) | Terminal

  /** The desired travel range of every ball. */
  predicate InTravel(p: real) {
    -MaxDistanceSteps <= p <= 0.0
  }

  /** `g` is exactly `rows` by `cols`. */
  predicate IsGrid<T>(g: seq<seq<T>>, rows: nat, cols: nat) {
    |g| == rows && forall i :: 0 <= i < rows ==> |g[i]| == cols
  }

  /** Every cell (i, j) with i < rows and j < cols can be read from `g`. */
  predicate Spans<T>(g: seq<seq<T>>, rows: nat, cols: nat) {
    |g| >= rows && forall i :: 0 <= i < rows ==> |g[i]| >= cols
  }

  /** Every cell of `small` has a counterpart in `big`. */
  predicate Covers<T, U>(big: seq<seq<T>>, small: seq<seq<U>>) {
    |small| <= |big| && forall i :: 0 <= i < |small| ==> |small[i]| <= |big[i]|
  }

  /** Both grids have the same number of rows and the same row lengths. */
  predicate SameShape<T, U>(a: seq<seq<T>>, b: seq<seq<U>>) {
    |a| == |b| && forall i :: 0 <= i < |a| ==> |a[i]| == |b[i]|
  }

  /** A `rows` by `cols` grid holding `v` everywhere. */
  function Fill<T>(rows: nat, cols: nat, v: T): (g: seq<seq<T>>)
    ensures IsGrid(g, rows, cols)
    ensures forall i, j :: 0 <= i < rows && 0 <= j < cols ==> g[i][j] == v
  {
    seq(rows, i => seq(cols, j => v))
  }
}
