# Kinetic sculpture animator: frame computation core

This project models the frame-computation core of a kinetic sculpture
simulator. The sculpture is a grid of balls (10 rows by 8 columns), each
hanging at a vertical position measured in travel steps: 0 is the top and
-95000 the bottom. An *animation* is asked once per tick for the next
frame. It gets the time since the loop started, the time since the
previous tick, and the positions the rig currently holds. It answers with
a new grid, or with the signal that it is over.

The model covers these parts:

- **Range helpers** (module `Ranges`): the linear range map, clamping and
  the clamped map, plus Python's `int()` as truncation toward zero.
- **Frames** (module `Frames`): rig constants, the frame type, grid shape
  predicates, and the `Option`/`Outcome` types.
- **Shader-style base** (module `Shader`): every cell is computed by a
  per-cell position function. The animation ends as soon as any cell is
  undefined. A cell may keep private state, which is what the rain
  animation uses.
- **Targeted base** (module `Targeted`): the strategy proposes a target
  grid. Every ball moves toward its target by at most `0.9 * 4500 * dt`
  and never overshoots. At timestamp 0 the proposal is returned as the
  frame itself.
- **Simulated rig** (module `Sculpture`): applies every frame and reports,
  without refusing, positions above the top, positions beyond the range,
  and implied speeds above 4500 steps/s.
- **Animator loop** (module `Scheduler`): a priming call at (0, 0), then
  one call per clock reading with timestamp and time delta. It stops at
  the first Terminal outcome. The loop is generic over the animation's
  private state, and all clock readings and random draws are inputs.
- **Sample wave** (module `SampleWave`): a triangle wave per row with a
  per-row phase offset.
- **Sample targeted animation** (module `PatternCycler`): six two-level
  patterns, cycled every three seconds.
- **Rain** (module `Rain`): a per-ball Idle / Falling / Rising state
  machine with column-dependent speed.

## Model

| member | source | states |
|---|---|---|
| Ranges.Truncate | sample_targeted_animation.py:105 | Python `int()` on a float: the result is the integer toward zero, within one of the argument and never farther from zero |
| Ranges.MapRange | sculpy.py:21-25 | a degenerate input interval yields `out_max`; otherwise `in_min` maps to `out_min` and `in_max` maps to `out_max` |
| Ranges.MapRangeFraction | sculpy.py:21-25 | the map is affine: the point a fraction l of the way along a proper input interval lands the same fraction l of the way along the output interval |
| Ranges.MapRangeWithin | sculpy.py:21-25 | a value inside a proper input interval maps between the two output bounds, whichever order they are in |
| Ranges.MapRangeRoundTrip | sculpy.py:21-25 | mapping forward and then back over the swapped intervals returns the original value when neither interval is degenerate |
| Ranges.Clamp | sculpy.py:27-33 | the result is one of lo, hi or the value; for lo <= hi it lies in [lo, hi], equals the value exactly when the value is already inside, and is the nearest point of [lo, hi] (a value below gives lo, one above gives hi); for hi < lo it is lo exactly when the value is below lo and hi otherwise |
| Ranges.MapRangeClamp | sculpy.py:35-37 | the result always lies between the two output bounds; with reversed output bounds it is always one of them |
| Ranges.MapRangeClampInside | sculpy.py:35-37 | for an ordered output interval and a value inside the input interval, the clamp never changes the mapped value |
| Ranges.MapRangeClampReversed | sculpy.py:35-37 | as written, with reversed output bounds, a mapped value strictly between them is still moved onto a bound (0.5 on [0,1] onto [10,0] gives 10, not 5) |
| Ranges.MapRangeClampOrdered | sculpy.py:35-37 | the corrected clamped map lies between the output bounds and leaves any mapped value that is already between them unchanged |
| Ranges.MapRangeClampOrderedInside | sculpy.py:35-37 | the corrected clamped map agrees with the plain map over the whole input interval, for either output orientation |
| Frames.Fill | sculpy.py:76-82 | a rows-by-cols grid holding the given value in every cell |
| Shader.Evaluate | sculpy.py:53-60 | every cell (i, j) of the grid holds the cell function's answer for that cell's last position and state |
| Shader.ShaderFrame | sculpy.py:50-67 | the outcome is Terminal exactly when some cell's position is undefined; otherwise the frame has the grid's shape and every cell is that cell's defined position; each cell's state becomes what its own call returned |
| Targeted.InitialTargets | sculpy.py:74-82 | the stored targets start as a rows-by-cols grid of 0.0 |
| Targeted.StepToward | sculpy.py:98-109 | a ball within reach lands on its target; otherwise it moves exactly the allowed distance toward it; it never gets farther from the target, never moves more than the distance, and stays between its position and its target |
| Targeted.TargetedFrame | sculpy.py:86-113 | at timestamp 0 the proposal is the frame and the stored targets are left alone; otherwise the proposal is stored and every ball of the last frame steps toward its new target by at most velocity times dt |
| Targeted.TargetedNoOvershoot | sculpy.py:86-113 | after the priming call and with dt >= 0, no ball overshoots: it gets no farther from its target, moves at most velocity times dt, and lands on the target when it was within reach |
| Sculpture.NewRig | sculpy.py:120-132 | a fresh rig holds every ball at position 0 (the top) and has applied no frame yet |
| Sculpture.CellWarnings | sculpy.py:221-231 | a cell gets at most two diagnostics, exactly the deserved ones: above-top when the position is > 0, otherwise beyond-range when it is < -95000, and too-fast when an elapsed time exists and the implied speed exceeds 4500 |
| Sculpture.RowWarnings | sculpy.py:221-231 | a row's diagnostics are exactly the deserved diagnostics about its cells |
| Sculpture.FrameWarnings | sculpy.py:220-231 | a frame's diagnostics are exactly the deserved diagnostics about its cells |
| Sculpture.SetBallPositions | sculpy.py:210-234 | every commanded cell is applied whatever the diagnostics; untouched balls keep their positions; the frame time becomes `now`; the diagnostics are exactly the deserved ones; position warnings are given iff the position is out of range; there is no speed check before the first frame |
| Sculpture.SculptureFirstFrame | sculpy.py:271 | on the 10-by-8 sculpture the program builds, the first frame of that size replaces every position and can raise no speed warning |
| Scheduler.CallFollows | sculpy.py:245-266 | in a run whose clock never goes backwards, call 0 is made at (0, 0) on the initial positions from the initial state, every call has dt >= 0, and each later call starts from the previous call's state and frame |
| Scheduler.RunKeeps | sculpy.py:248-266 | an invariant that the priming call establishes and every later call preserves holds of every call of the run, and no such call ends the animation |
| Scheduler.OnlySpeedWarnings | sculpy.py:221-231 | when an applied frame stays in the travel range, every diagnostic about it is a speed warning |
| Scheduler.Tick | sculpy.py:252-268 | one loop iteration either stops at a Terminal outcome without applying it, or applies the frame and keeps the run protocol and the diagnostics exact |
| Scheduler.RunLoop | sculpy.py:252-268 | the loop ends at the first Terminal outcome or when the readings run out, with every other frame applied and diagnosed |
| Scheduler.RunAnimation | sculpy.py:245-268 | the trace follows the call protocol (priming call at (0, 0), timestamps relative to the loop start, dt 0 first and then the timestamp difference); a Terminal priming call leaves nothing applied; the run ends at the first Terminal outcome; the rig ends holding the last applied frame at that frame's apply time; every applied frame's diagnostics are exactly the deserved ones |
| SampleWave.Triangle | sample_animation.py:21-27 | for non-negative times and a positive period the wave stays between top and bottom |
| SampleWave.TriangleEndpoints | sample_animation.py:21-27 | the wave is at the top at every whole period and at the bottom half a period later |
| SampleWave.TrianglePeriodic | sample_animation.py:21-27 | for non-negative times the wave repeats after one period |
| SampleWave.WaveFrame | sample_animation.py:5-19 | the frame keeps the last frame's shape; every cell of a row holds the same wave value at that row's shifted time; cells outside the grid are untouched |
| SampleWave.WaveBounds | sample_animation.py:5-27 | from time 0 on, every animated ball lies between -50000 and -30000, inside the travel range |
| SampleWave.WaveFixedPoints | sample_animation.py:5-27 | row 0 is at -30000 at time 0 and at -40000 at time 5; on a two-row grid row 1 is a quarter period ahead |
| SampleWave.WaveAnimator | sample_animation.py:5-19 | the sample animation as the loop calls it: stateless, defined on every frame of the grid's size, and always answering with the wave frame |
| SampleWave.WaveWellFormed | sample_animation.py:5-19 | the sample animation always answers with a full frame and never ends |
| PatternCycler.Patterns | sample_targeted_animation.py:12-101 | there are six patterns, each a rows-by-cols grid |
| PatternCycler.PatternsTwoLevel | sample_targeted_animation.py:14-101 | every cell of every pattern is -20000 or -22000, inside the travel range |
| PatternCycler.PatternsLayout | sample_targeted_animation.py:19-89 | pattern 0 raises exactly the even rows, pattern 2 the cells whose row plus column is even, pattern 4 the even columns |
| PatternCycler.PatternsInverse | sample_targeted_animation.py:19-101 | each odd-numbered pattern is the previous one with every ball's level swapped |
| PatternCycler.PatternIndex | sample_targeted_animation.py:105 | the scheduled index is always a valid pattern index |
| PatternCycler.PatternSchedule | sample_targeted_animation.py:103-107 | during seconds [3k, 3k+3) pattern k mod 6 is scheduled |
| PatternCycler.PatternScheduleNearZero | sample_targeted_animation.py:105 | because of truncation toward zero, pattern 0 is also scheduled for timestamps in (-3, 0) |
| PatternCycler.NextTargets | sample_targeted_animation.py:103-107 | the proposal is one of the six patterns, has the grid's shape, and keeps every target between the two levels |
| PatternCycler.NextTargetsSchedule | sample_targeted_animation.py:103-107 | during seconds [3k, 3k+3) the proposal is pattern k mod 6, whatever the time delta and the current targets |
| PatternCycler.CyclerAnimator | sculpy.py:86-113 | the sample targeted animation as the loop calls it: its state is the stored target grid, and each step is the targeted tick driven by the pattern proposal |
| PatternCycler.CyclerWellFormed | sample_targeted_animation.py:103-107 | the sample targeted animation always answers with a full frame and never ends |
| PatternCycler.CyclerFirstFrame | sculpy.py:86-89 | the priming call returns pattern 0 itself and leaves the stored targets at zero; on a 2x2 grid that is the top row up and the bottom row down |
| PatternCycler.CyclerStepBanded | sculpy.py:86-113 | with dt >= 0, a tick keeps every ball between the two pattern levels |
| PatternCycler.CyclerKeepsBanded | sculpy.py:86-113 | the priming call puts every ball in the band and every later call keeps it there |
| PatternCycler.CyclerRunBanded | sculpy.py:245-266 | in a whole run whose clock never goes backwards, every frame of the sample targeted animation keeps every ball in the band and inside the travel range |
| PatternCycler.CyclerOnlySpeedWarnings | sculpy.py:219-231 | over such a run the rig never reports a position warning for the sample targeted animation |
| Rain.FallVelocity | rain_animation.py:22-28 | the last column moves at 1500 steps/s, column 0 is the fastest, and every speed lies between those two |
| Rain.FallVelocityOrder | rain_animation.py:28 | moving one column to the right slows the balls by exactly 375 steps/s |
| Rain.FallVelocityBelowMax | rain_animation.py:28 | on the 8-column sculpture every column's speed is positive and below 4500 |
| Rain.RainCell | rain_animation.py:19-47 | at timestamp 0 the ball goes to the top and keeps its phase; otherwise the phase stays or advances one step in the Idle, Falling, Rising cycle; an idle ball stays put and starts falling iff its draw is 0; a falling ball moves down but not past -90000 and turns exactly when it reaches it; a rising ball moves up but not past 0 and comes to rest exactly when it reaches it |
| Rain.RainCellInRange | rain_animation.py:30-44 | with dt >= 0 a ball between bottom and top stays there, whatever its phase |
| Rain.RainCellSettled | rain_animation.py:19-47 | with dt >= 0 a settled ball (in range, and at the top when idle) stays settled; falling never moves up and rising never moves down |
| Rain.RainFrame | rain_animation.py:19-47 | every cell is defined, so the rain never ends; each cell and phase is that ball's step |
| Rain.RainFrameSettled | rain_animation.py:19-47 | a tick with dt >= 0 keeps every ball settled and inside the travel range |
| Rain.NewRainStates | rain_animation.py:9-17 | every ball starts idle |
| Rain.RainAnimator | rain_animation.py:19-47 | the rain animation as the loop calls it: its state is the grid of phases, and each step answers with the rain frame and the phases it leaves |
| Rain.RainWellFormed | rain_animation.py:19-47 | the rain animation always answers with a full frame and never ends |
| Rain.RainKeepsSettled | rain_animation.py:19-47 | the priming call settles every ball and every later call keeps them settled |
| Rain.RainRunSettled | sculpy.py:245-266 | in a whole run whose clock never goes backwards, every frame of the rain animation keeps every ball settled and inside the travel range |
| Rain.RainOnlySpeedWarnings | sculpy.py:219-231 | over such a run the rig never reports a position warning for the rain animation |

The rain speed at rain_animation.py:28, 1500 + 375 * (columns - column - 1),
makes column 0 the fastest and the last column the slowest.

rain_animation.py:7 derives from `sculpy.ShaderAnimation`, but sculpy.py
defines no class by that name. The model treats the rain animation as the
shader-style animation it is evidently meant to be.

## Left out

- Rendering: the vpython canvas, bounding box and ball geometry (sculpy.py:120-198) are not modelled. Positions are kept in travel steps.
- Rig read-back: the rig reads positions back rounded to whole steps (sculpy.py:204), so the source's animations and speed check see integer positions. The model feeds back the exact positions last applied.
- Pacing: `rate(FRAME_RATE)` and `time.monotonic()` are replaced by a finite sequence of clock readings passed in as an input.
- Module loading: importlib, `ANIMATION_CLASS`, `main` and argument parsing are left out. Each animation is built directly as a `Scheduler.Animator`.
- Randomness: `random.randrange(0, 400)` is a per-call, per-cell draw passed in as an input, so the 1/400 probability is not modelled.
- Warnings output: `print` diagnostics are returned as `Sculpture.Warning` values instead.
- Floating point: positions and times are exact reals, so IEEE-754 rounding is not modelled.
- Scheduler.RunAnimation: the source loop is unbounded (`while True`). The model runs until a Terminal outcome or until the supplied clock readings run out.
- Scheduler.RunAnimation: requires successive apply readings to increase strictly. Equal readings would divide by zero in the source's speed check (sculpy.py:229), so a run with equal readings is not modelled.
- Sculpture.SetBallPositions: requires a non-zero time since the previous frame, for the same division-by-zero reason.
- Scheduler.RunAnimation: a Terminal priming call crashes the source inside `set_ball_positions(None)`. The model reports this as `crashed` and stops.
- Shape errors: the source raises IndexError when a last frame or state grid is smaller than the grid, or when a proposed target grid is smaller than the last frame. The model excludes these cases with `Spans` requires on Shader.ShaderFrame and SampleWave.WaveFrame, and a `Covers` requires on Targeted.TargetedFrame.
- Sculpture.SetBallPositions: requires the commanded frame to fit inside the rig. A larger frame makes the source raise IndexError at sculpy.py:227 or 232. A smaller frame is modelled: untouched balls keep their positions.
- SampleWave.WaveFrame: requires at least one row, as does SampleWave.WaveAnimator. With zero rows the source divides by zero at sample_animation.py:9.
- Rain.RainRunSettled: assumes the loop's clock readings never decrease. Otherwise a time delta could be negative and a ball could move backwards past its bounds.
- PatternCycler.CyclerRunBanded: makes the same assumption, for the same reason.
- Only the constant-speed rain animation of rain_animation.py is modelled.

## Findings

| source | as written | input that shows it | evidently intended | confidence | as-written member | corrected member |
|---|---|---|---|---|---|---|
| sculpy.py:35-37 | `map_range_clamp` clamps with `clamp(out_min, out_max, ...)`, which assumes `out_min <= out_max`. With a reversed output range, every value collapses onto a bound. | `map_range_clamp(0.0, 1.0, 10.0, 0.0, 0.5)` returns 10.0, but the mapped value 5.0 is already inside the output range | clamp to the output interval in either orientation, as the triangle wave's reversed `map_range` calls would need | medium, not executed | Ranges.MapRangeClampReversed | Ranges.MapRangeClampOrdered |
