/** Numeric helpers shared by every animation strategy: linear range mapping,
    clamping, and the truncating integer conversion the animations rely on. */
module Ranges {

  function Abs(x: real): real {
    if x < 0.0 then -x else x
  }

  function Min(a: real, b: real): real {
    if a <= b then a else b
  }

  function Max(a: real, b: real): real {
    if a <= b then b else a
  }

  /** Conversion of a real to an integer by truncation toward zero, the way the
      animations convert elapsed time into a whole count. */
  function Truncate(x: real): (n: int)
    ensures 0.0 <= x ==> 0 <= n && n as real <= x < n as real + 1.0
    ensures x < 0.0 ==> n <= 0 && n as real - 1.0 < x <= n as real
  {
    if x >= 0.0 then x.Floor else -((-x).Floor)
  }

  /** Linear map of `value` from [inMin, inMax] onto [outMin, outMax]; a
      degenerate input interval maps everything to `outMax`. */
  function MapRange(inMin: real, inMax: real, outMin: real, outMax: real, value: real): (r: real)
    ensures inMin == inMax ==> r == outMax
    ensures inMin != inMax && value == inMin ==> r == outMin
    ensures inMin != inMax && value == inMax ==> r == outMax
  {
    if inMin == inMax then outMax
    else ((value - inMin) / (inMax - inMin)) * (outMax - outMin) + outMin
  }

  /** A value inside the input interval lands inside the output interval. */
  lemma MapRangeWithin(inMin: real, inMax: real, outMin: real, outMax: real, value: real)
    ensures inMin < inMax && inMin <= value <= inMax ==>
              Min(outMin, outMax) <= MapRange(inMin, inMax, outMin, outMax, value) <= Max(outMin, outMax)
  {
    if inMin < inMax && inMin <= value <= inMax {
      var f := (value - inMin) / (inMax - inMin);
      assert f * (inMax - inMin) == value - inMin;
      assert 0.0 <= f <= 1.0;
      var d := outMax - outMin;
      assert MapRange(inMin, inMax, outMin, outMax, value) == f * d + outMin;
      if d >= 0.0 {
        assert 0.0 <= f * d <= d;
      } else {
        assert d <= f * d <= 0.0;
      }
    }
  }

  /** Mapping forward and then back over the swapped intervals returns the
      original value whenever neither interval is degenerate. */
  lemma MapRangeRoundTrip(inMin: real, inMax: real, outMin: real, outMax: real, value: real)
    requires inMin != inMax && outMin != outMax
    ensures MapRange(outMin, outMax, inMin, inMax, MapRange(inMin, inMax, outMin, outMax, value)) == value
  {
    var f := (value - inMin) / (inMax - inMin);
    var y := MapRange(inMin, inMax, outMin, outMax, value);
    assert y == f * (outMax - outMin) + outMin;
    assert y - outMin == f * (outMax - outMin);
    assert (f * (outMax - outMin)) / (outMax - outMin) == f;
    assert (y - outMin) / (outMax - outMin) == f;
    assert f * (inMax - inMin) == value - inMin;
  }

  /** The map is affine: the point a fraction `l` of the way along the input
      interval lands the same fraction of the way along the output interval. */
  lemma MapRangeFraction(inMin: real, inMax: real, outMin: real, outMax: real, l: real)
    requires inMin != inMax
    ensures MapRange(inMin, inMax, outMin, outMax, inMin + l * (inMax - inMin)) == outMin + l * (outMax - outMin)
  {
    assert (l * (inMax - inMin)) / (inMax - inMin) == l;
  }

  /** Clamp `value` into [lo, hi], testing the lower bound first. */
  function Clamp(lo: real, hi: real, value: real): (r: real)
    ensures r == lo || r == hi || r == value
    ensures lo <= hi ==> lo <= r <= hi
    ensures lo <= hi ==> (r == value <==> lo <= value <= hi)
    ensures hi < lo ==> r == lo || r == hi
    ensures lo <= hi ==> r == Max(lo, Min(hi, value))
    ensures hi < lo ==> (r == lo <==> value < lo)
  {
    if value < lo then lo
    else if value > hi then hi
    else value
  }

  /** MapRange followed by Clamp onto the output interval. Whatever the order of
      the output bounds, the result lies between them; when they are reversed
      the result is one of the two bounds. */
  function MapRangeClamp(inMin: real, inMax: real, outMin: real, outMax: real, value: real): (r: real)
    ensures Min(outMin, outMax) <= r <= Max(outMin, outMax)
    ensures outMax < outMin ==> r == outMin || r == outMax
  {
    Clamp(outMin, outMax, MapRange(inMin, inMax, outMin, outMax, value))
  }

  /** Inside the input interval the clamp never engages: MapRangeClamp agrees
      with the plain linear map. */
  lemma MapRangeClampInside(inMin: real, inMax: real, outMin: real, outMax: real, value: real)
    requires inMin < inMax && inMin <= value <= inMax && outMin <= outMax
    ensures MapRangeClamp(inMin, inMax, outMin, outMax, value) == MapRange(inMin, inMax, outMin, outMax, value)
  {
    MapRangeWithin(inMin, inMax, outMin, outMax, value);
  }

  /** With the output bounds reversed, a value the linear map sends strictly
      between them is still pushed onto a bound: 0.5 on [0, 1] onto [10, 0]
      maps to 5 but comes back as 10. */
  lemma MapRangeClampReversed(inMin: real, inMax: real, outMin: real, outMax: real, value: real)
    requires outMax < outMin
    ensures outMax < MapRange(inMin, inMax, outMin, outMax, value) < outMin ==>
              MapRangeClamp(inMin, inMax, outMin, outMax, value) != MapRange(inMin, inMax, outMin, outMax, value)
    ensures MapRange(0.0, 1.0, 10.0, 0.0, 0.5) == 5.0 && MapRangeClamp(0.0, 1.0, 10.0, 0.0, 0.5) == 10.0
  {
  }

  /** MapRange followed by a clamp onto the output interval taken in either
      orientation. */
  function MapRangeClampOrdered(inMin: real, inMax: real, outMin: real, outMax: real, value: real): (r: real)
    ensures Min(outMin, outMax) <= r <= Max(outMin, outMax)
    ensures Min(outMin, outMax) <= MapRange(inMin, inMax, outMin, outMax, value) <= Max(outMin, outMax) ==>
              r == MapRange(inMin, inMax, outMin, outMax, value)
  {
    Clamp(Min(outMin, outMax), Max(outMin, outMax), MapRange(inMin, inMax, outMin, outMax, value))
  }

  /** Inside the input interval the ordered clamp never engages, whichever
      way round the output bounds are. */
  lemma MapRangeClampOrderedInside(inMin: real, inMax: real, outMin: real, outMax: real, value: real)
    requires inMin < inMax && inMin <= value <= inMax
    ensures MapRangeClampOrdered(inMin, inMax, outMin, outMax, value) == MapRange(inMin, inMax, outMin, outMax, value)
  {
    MapRangeWithin(inMin, inMax, outMin, outMax, value);
  }
}
