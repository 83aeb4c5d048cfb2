/** The simulated rig: it holds the current ball positions and the time the
    previous frame was applied, applies every commanded frame, and reports
    (without refusing) positions outside the travel range and implied speeds
    above the maximum ball velocity. */
module Sculpture {
  import opened Frames
  import opened Ranges

  /** A non-fatal diagnostic about one commanded cell. */
  datatype Warning =
    | AboveTop(row: nat, column: nat, position: real)
    | BeyondRange(row: nat, column: nat, position: real)
    | TooFast(row: nat, column: nat, speed: real)

  datatype Rig = Rig(positions: Frame, lastFrameTime: Option<real>)

  /** A freshly built rig: every ball at the top, no frame applied yet. */
  function NewRig(rows: nat, cols: nat): (rig: Rig)
    ensures IsGrid(rig.positions, rows, cols)
    ensures forall i, j :: 0 <= i < rows && 0 <= j < cols ==> rig.positions[i][j] == 0.0
    ensures rig.lastFrameTime.None?
  {
    Rig(Fill(rows, cols, 0.0), None)
  }

  /** Time elapsed since the previous frame, absent before the first one. */
  function Elapsed(rig: Rig, now: real): Option<real> {
    match rig.lastFrameTime
    case None => None
    case Some(t) => Some(now - t)
  }

  predicate NonZero(elapsed: Option<real>) {
    elapsed.Some? ==> elapsed.value != 0.0
  }

  /** Magnitude of the velocity implied by moving from `prev` to `p` in `elapsed`. */
  function Speed(p: real, prev: real, elapsed: real): real
    requires elapsed != 0.0
  {
    Abs((p - prev) / elapsed)
  }

  /** When a warning about a cell commanded to `p` from `prev` is deserved. */
  predicate Deserved(w: Warning, p: real, prev: real, elapsed: Option<real>)
    requires NonZero(elapsed)
  {
    match w
    case AboveTop(_, _, q) => q == p && p > 0.0
    case BeyondRange(_, _, q) => q == p && p < -MaxDistanceSteps
    case TooFast(_, _, v) =>
      elapsed.Some? && v == Speed(p, prev, elapsed.value) && v > MaxBallVelocity
  }

  /** `w` names a cell of `frame` and is deserved there. */
  predicate Justified(w: Warning, frame: Frame, last: Frame, elapsed: Option<real>)
    requires Covers(last, frame) && NonZero(elapsed)
  {
    && w.row < |frame| && w.column < |frame[w.row]|
    && Deserved(w, frame[w.row][w.column], last[w.row][w.column], elapsed)
  }

  /** The rig's checks for one cell, position first, then velocity: at most
      one position warning and one speed warning, exactly the deserved ones. */
  function CellWarnings(i: nat, j: nat, p: real, prev: real, elapsed: Option<real>): (ws: seq<Warning>)
    requires NonZero(elapsed)
    ensures |ws| <= 2
    ensures forall w :: w in ws <==> w.row == i && w.column == j && Deserved(w, p, prev, elapsed)
  {
    (if p > 0.0 then [AboveTop(i, j, p)]
     else if p < -MaxDistanceSteps then [BeyondRange(i, j, p)]
     else [])
    + (if elapsed.Some? && Speed(p, prev, elapsed.value) > MaxBallVelocity
       then [TooFast(i, j, Speed(p, prev, elapsed.value))]
       else [])
  }

  /** Warnings for one row, in column order: exactly the deserved warnings
      about its cells. */
  function RowWarnings(i: nat, row: seq<real>, lastRow: seq<real>, elapsed: Option<real>): (ws: seq<Warning>)
    requires |row| <= |lastRow| && NonZero(elapsed)
    ensures forall w :: w in ws <==>
              w.row == i && w.column < |row| && Deserved(w, row[w.column], lastRow[w.column], elapsed)
    decreases |row|
  {
    if |row| == 0 then []
    else
      var j := |row| - 1;
      var front := RowWarnings(i, row[..j], lastRow, elapsed);
      assert forall w :: w in front <==>
               w.row == i && w.column < j && Deserved(w, row[w.column], lastRow[w.column], elapsed);
      front + CellWarnings(i, j, row[j], lastRow[j], elapsed)
  }

  /** Warnings for a whole frame, in row-major order: exactly the deserved
      warnings about its cells. */
  function FrameWarnings(frame: Frame, last: Frame, elapsed: Option<real>): (ws: seq<Warning>)
    requires Covers(last, frame) && NonZero(elapsed)
    ensures forall w :: w in ws <==> Justified(w, frame, last, elapsed)
    decreases |frame|
  {
    if |frame| == 0 then []
    else
      var i := |frame| - 1;
      var front := FrameWarnings(frame[..i], last, elapsed);
      assert forall w :: w in front <==> w.row < i && Justified(w, frame, last, elapsed);
      front + RowWarnings(i, frame[i], last[i], elapsed)
  }

  /** Apply `frame` at clock reading `now`. Every commanded cell is applied
      whatever the warnings say; balls the frame does not mention keep their
      positions. The warnings are exactly the deserved ones, and the velocity
      check is skipped before the first frame. */
  function SetBallPositions(rig: Rig, frame: Frame, now: real): (r: (Rig, seq<Warning>))
    requires Covers(rig.positions, frame)
    requires rig.lastFrameTime.Some? ==> now != rig.lastFrameTime.value
    ensures r.0.lastFrameTime == Some(now)
    ensures SameShape(r.0.positions, rig.positions)
    ensures forall i, j :: 0 <= i < |frame| && 0 <= j < |frame[i]| ==> r.0.positions[i][j] == frame[i][j]
    ensures forall i, j :: (0 <= i < |rig.positions| && 0 <= j < |rig.positions[i]| &&
              !(i < |frame| && j < |frame[i]|)) ==> r.0.positions[i][j] == rig.positions[i][j]
    ensures SameShape(frame, rig.positions) ==> r.0.positions == frame
    ensures forall w :: w in r.1 <==> Justified(w, frame, rig.positions, Elapsed(rig, now))
    ensures forall i, j :: 0 <= i < |frame| && 0 <= j < |frame[i]| ==>
              && (AboveTop(i, j, frame[i][j]) in r.1 <==> frame[i][j] > 0.0)
              && (BeyondRange(i, j, frame[i][j]) in r.1 <==> frame[i][j] < -MaxDistanceSteps)
    ensures rig.lastFrameTime.None? ==> forall w :: w in r.1 ==> !w.TooFast?
  {
    var elapsed := Elapsed(rig, now);
    var ws := FrameWarnings(frame, rig.positions, elapsed);
    var positions := seq(|rig.positions|, i requires 0 <= i < |rig.positions| =>
                       seq(|rig.positions[i]|, j requires 0 <= j < |rig.positions[i]| =>
                         if i < |frame| && j < |frame[i]| then frame[i][j] else rig.positions[i][j]));
    assert SameShape(frame, rig.positions) ==> positions == frame by {
      if SameShape(frame, rig.positions) {
        assert forall i | 0 <= i < |frame| :: positions[i] == frame[i];
      }
    }
    (Rig(positions, Some(now)), ws)
  }

  /** The sculpture the program builds has 10 rows of 8 balls. Its first
      applied frame of that size replaces every position, and since no frame
      came before, it can only raise position warnings. */
  lemma SculptureFirstFrame(frame: Frame, now: real)
    requires IsGrid(frame, RowCount, ColumnCount)
    ensures var r := SetBallPositions(NewRig(RowCount, ColumnCount), frame, now);
            && r.0.positions == frame && r.0.lastFrameTime == Some(now)
            && forall w :: w in r.1 ==> !w.TooFast? && w.row < RowCount && w.column < ColumnCount
  {
    var rig := NewRig(RowCount, ColumnCount);
    assert SameShape(frame, rig.positions);
  }
}
