/** `WindFinder::angle_to_direction`: a bearing in degrees becomes one of the
    16 compass labels. The bearing is an exact `real`; the `f64` value's
    rounding error, NaN and infinities are not modelled. */
module Compass {

  /** The 16 labels, clockwise from north, 22.5 degrees apart. */
  const Directions: seq<string> :=
    ["N", "NNE", "NE", "ENE", "E", "ESE", "SE", "SSE",
     "S", "SSW", "SW", "WSW", "W", "WNW", "NW", "NNW"]

  /** `f64::round`: the nearest integer, halfway cases away from zero. */
  function Round(x: real): (n: int)
    ensures -0.5 <= x - n as real <= 0.5
    ensures x - n as real == 0.5 ==> x < 0.0
    ensures n as real - x == 0.5 ==> x > 0.0
  {
    if x >= 0.0 then (x + 0.5).Floor else -((0.5 - x).Floor)
  }

  /** The `as usize` cast of an integral value: negative values saturate to 0.
      (Saturation at `usize::MAX` would need a bearing beyond 4e20 degrees.) */
  function ToUsize(n: int): (u: nat)
    ensures n >= 0 ==> u == n
    ensures n < 0 ==> u == 0
  {
    if n < 0 then 0 else n
  }

  /** The index into `Directions`: `round(angle / 22.5) as usize % 16`. */
  function DirectionIndex(angle: real): (i: nat)
    ensures i < |Directions|
  {
    ToUsize(Round(angle / 22.5)) % 16
  }

  /** `angle_to_direction`. */
  function AngleToDirection(angle: real): (dir: string)
    ensures dir in Directions
  {
    Directions[DirectionIndex(angle)]
  }

  /** Sector characterisation: for a non-negative bearing, label k covers the
      half-open 22.5-degree sector centred on 22.5 * k, the upper edge going
      to the next label, and counting continues past 360 degrees. */
  lemma Sector(angle: real, n: nat)
    requires 22.5 * n as real - 11.25 <= angle < 22.5 * n as real + 11.25
    requires angle >= 0.0
    ensures AngleToDirection(angle) == Directions[n % 16]
  {
    assert n as real - 0.5 <= angle / 22.5 < n as real + 0.5;
    assert Round(angle / 22.5) == n;
  }

  /** Every bearing at or below zero gives "N": the rounded quotient is at most
      zero and the `as usize` cast turns a negative value into 0, so no true
      modulo is applied to negative bearings. */
  lemma NonPositiveIsNorth(angle: real)
    requires angle <= 0.0
    ensures AngleToDirection(angle) == "N"
  {
    assert Round(angle / 22.5) <= 0;
  }

  /** Shifting by a whole number shifts the floor by the same amount. */
  lemma FloorShift(x: real, m: int)
    ensures (x + m as real).Floor == x.Floor + m
  {
    var f := x.Floor;
    assert f as real <= x < f as real + 1.0;
    assert (f + m) as real <= x + m as real < (f + m) as real + 1.0;
  }

  /** One full turn more gives the same label, for non-negative bearings. */
  lemma FullTurn(angle: real)
    requires angle >= 0.0
    ensures AngleToDirection(angle + 360.0) == AngleToDirection(angle)
  {
    var q := angle / 22.5;
    assert q >= 0.0;
    assert (angle + 360.0) / 22.5 == q + 16.0;
    FloorShift(q + 0.5, 16);
    var r := Round(q);
    assert r >= 0;
    assert Round(q + 16.0) == r + 16;
    assert DirectionIndex(angle + 360.0) == (r + 16) % 16;
    assert (r + 16) % 16 == r % 16;
  }

  /** Periodicity: `k` further full turns give the same label. */
  lemma {:induction false} Periodic(angle: real, k: nat)
    requires angle >= 0.0
    ensures AngleToDirection(angle + 360.0 * k as real) == AngleToDirection(angle)
  {
    if k > 0 {
      Periodic(angle, k - 1);
      var prev := angle + 360.0 * (k - 1) as real;
      FullTurn(prev);
      assert prev + 360.0 == angle + 360.0 * k as real;
    }
  }

  /** Sample bearings: 0, 90, 180 and 349 degrees
      (349 / 22.5 = 15.51 rounds to 16, which wraps to "N"). */
  lemma Examples()
    ensures AngleToDirection(0.0) == "N"
    ensures AngleToDirection(90.0) == "E"
    ensures AngleToDirection(180.0) == "S"
    ensures AngleToDirection(349.0) == "N"
    ensures AngleToDirection(-90.0) == "N"
  {
    NonPositiveIsNorth(0.0);
    Sector(90.0, 4);
    Sector(180.0, 8);
    Sector(349.0, 16);
    NonPositiveIsNorth(-90.0);
  }
}
