/**
 Kinematics of one pair of devices, over the reals: stopping distance from a
 speed and a vehicle type, and the centre distance under the current system
 mode. `Math.sqrt` is a parameter `sqrt`; what the model assumes of it is
 `SqrtLaws`, the defining property of the real square root.
 */
module Physics {
  import opened Modes

  /** A device record as the registry stores it (every field present). */
  datatype Device = Device(
    id: string,
    vehicleType: string,
    velocity: real,
    x: real, y: real,
    lat: real, lng: real,
    timestamp: int)

  const BaseReactionTime: real := 1.0
  const BikeDeceleration: real := 6.0
  const CarDeceleration: real := 7.0
  /** Metres per degree, the small-angle scale of the outdoor metric. */
  const MetresPerDegree: real := 111000.0

  ghost predicate SqrtLaws(sqrt: real -> real) {
    forall q :: 0.0 <= q ==> 0.0 <= sqrt(q) && sqrt(q) * sqrt(q) == q
  }

  // Small steps of non-linear arithmetic, each about one product, so the
  // solver never has to combine several products at once.

  lemma MulRightLe(x: real, y: real, c: real)
    requires x <= y && 0.0 <= c
    ensures x * c <= y * c
  {
  }

  lemma MulPositive(x: real, y: real)
    requires 0.0 < x && 0.0 < y
    ensures 0.0 < x * y
  {
  }

  lemma SquareLess(a: real, b: real)
    requires 0.0 <= a < b
    ensures a * a < b * b
  {
    MulPositive(b - a, b + a);
    assert (b - a) * (b + a) == b * b - a * a;
  }

  lemma SquareLe(a: real, b: real)
    requires 0.0 <= a <= b
    ensures a * a <= b * b
  {
    if a < b {
      SquareLess(a, b);
    }
  }

  /** Non-negative reals with equal squares are equal. */
  lemma SquareInjective(a: real, b: real)
    requires 0.0 <= a && 0.0 <= b && a * a == b * b
    ensures a == b
  {
    if a < b {
      SquareLess(a, b);
    } else if b < a {
      SquareLess(b, a);
    }
  }

  lemma SqrtOfSquare(sqrt: real -> real, r: real)
    requires SqrtLaws(sqrt) && 0.0 <= r
    ensures sqrt(r * r) == r
  {
    assert 0.0 <= r * r;
    SquareInjective(sqrt(r * r), r);
  }

  lemma SqrtMonotone(sqrt: real -> real, p: real, q: real)
    requires SqrtLaws(sqrt) && 0.0 <= p <= q
    ensures sqrt(p) <= sqrt(q)
  {
    var a, b := sqrt(p), sqrt(q);
    if b < a {
      SquareLess(b, a);
    }
  }

  lemma SqrtStrictMonotone(sqrt: real -> real, p: real, q: real)
    requires SqrtLaws(sqrt) && 0.0 <= p < q
    ensures sqrt(p) < sqrt(q)
  {
    SqrtMonotone(sqrt, p, q);
  }

  // ─── Stopping distance ───

  function ReactionTime(controlMode: real): (t: real)
    ensures ValidControl(controlMode) ==> 0.0 < t <= BaseReactionTime
  {
    BaseReactionTime * controlMode
  }

  /** Only the exact tag "BIKE" selects the lower deceleration. */
  function Deceleration(vehicleType: string): (d: real)
    ensures d == BikeDeceleration <==> vehicleType == "BIKE"
    ensures d == BikeDeceleration || d == CarDeceleration
  {
    if vehicleType == "BIKE" then BikeDeceleration else CarDeceleration
  }

  /** `v² / (2 · deceleration)`, with the deceleration of the vehicle's type. */
  function BrakingDistance(velocity: real, vehicleType: string): real {
    (velocity * velocity) / (2.0 * Deceleration(vehicleType))
  }

  function StoppingDistance(velocity: real, vehicleType: string, controlMode: real): real {
    var reactionDistance := velocity * ReactionTime(controlMode);
    reactionDistance + BrakingDistance(velocity, vehicleType)
  }

  /** Reaction distance plus braking distance, in closed form for each deceleration. */
  lemma StoppingDistanceFormula(velocity: real, vehicleType: string, controlMode: real)
    ensures vehicleType == "BIKE" ==>
      StoppingDistance(velocity, vehicleType, controlMode) == velocity * controlMode + velocity * velocity / 12.0
    ensures vehicleType != "BIKE" ==>
      StoppingDistance(velocity, vehicleType, controlMode) == velocity * controlMode + velocity * velocity / 14.0
  {
  }

  lemma StoppingDistanceNonNegative(velocity: real, vehicleType: string, controlMode: real)
    requires 0.0 <= velocity && 0.0 <= controlMode
    ensures 0.0 <= StoppingDistance(velocity, vehicleType, controlMode)
  {
    assert 0.0 <= velocity * controlMode;
    assert 0.0 <= velocity * velocity;
  }

  lemma StoppingDistanceAtRest(vehicleType: string, controlMode: real)
    ensures StoppingDistance(0.0, vehicleType, controlMode) == 0.0
  {
  }

  /** A bike never stops shorter than any other vehicle at the same speed. */
  lemma BikeStopsFarther(velocity: real, vehicleType: string, controlMode: real)
    ensures StoppingDistance(velocity, "BIKE", controlMode) >= StoppingDistance(velocity, vehicleType, controlMode)
  {
    assert 0.0 <= velocity * velocity;
  }

  lemma StoppingDistanceMonotoneInSpeed(v1: real, v2: real, vehicleType: string, controlMode: real)
    requires 0.0 <= v1 <= v2 && 0.0 <= controlMode
    ensures StoppingDistance(v1, vehicleType, controlMode) <= StoppingDistance(v2, vehicleType, controlMode)
  {
    StoppingDistanceFormula(v1, vehicleType, controlMode);
    StoppingDistanceFormula(v2, vehicleType, controlMode);
    MulRightLe(v1, v2, controlMode);
    SquareLe(v1, v2);
  }

  /** A shorter reaction multiplier (more automation) never lengthens the stop. */
  lemma StoppingDistanceMonotoneInControl(velocity: real, vehicleType: string, c1: real, c2: real)
    requires 0.0 <= velocity && c1 <= c2
    ensures StoppingDistance(velocity, vehicleType, c1) <= StoppingDistance(velocity, vehicleType, c2)
  {
    assert velocity * c1 <= velocity * c2;
  }

  // ─── Distance ───

  function Planar(dx: real, dy: real, sqrt: real -> real): real {
    sqrt(dx * dx + dy * dy)
  }

  function IndoorDistance(a: Device, b: Device, sqrt: real -> real): real {
    Planar(a.x - b.x, a.y - b.y, sqrt)
  }

  function OutdoorDistance(a: Device, b: Device, sqrt: real -> real): real {
    Planar(a.lat - b.lat, a.lng - b.lng, sqrt) * MetresPerDegree
  }

  function CalculateDistance(mode: SystemMode, a: Device, b: Device, sqrt: real -> real): real {
    if mode == Indoor then IndoorDistance(a, b, sqrt) else OutdoorDistance(a, b, sqrt)
  }

  /** The part of a device's position the given mode consults. */
  predicate SamePosition(mode: SystemMode, a: Device, b: Device) {
    match mode
    case Indoor => a.x == b.x && a.y == b.y
    case Outdoor => a.lat == b.lat && a.lng == b.lng
  }

  lemma SumOfSquaresNonNegative(dx: real, dy: real)
    ensures 0.0 <= dx * dx + dy * dy
  {
    assert 0.0 <= dx * dx;
    assert 0.0 <= dy * dy;
  }

  lemma DistanceNonNegative(mode: SystemMode, a: Device, b: Device, sqrt: real -> real)
    requires SqrtLaws(sqrt)
    ensures 0.0 <= CalculateDistance(mode, a, b, sqrt)
  {
    SumOfSquaresNonNegative(a.x - b.x, a.y - b.y);
    SumOfSquaresNonNegative(a.lat - b.lat, a.lng - b.lng);
  }

  lemma DistanceSymmetric(mode: SystemMode, a: Device, b: Device, sqrt: real -> real)
    ensures CalculateDistance(mode, a, b, sqrt) == CalculateDistance(mode, b, a, sqrt)
  {
    assert (a.x - b.x) * (a.x - b.x) == (b.x - a.x) * (b.x - a.x);
    assert (a.y - b.y) * (a.y - b.y) == (b.y - a.y) * (b.y - a.y);
    assert (a.lat - b.lat) * (a.lat - b.lat) == (b.lat - a.lat) * (b.lat - a.lat);
    assert (a.lng - b.lng) * (a.lng - b.lng) == (b.lng - a.lng) * (b.lng - a.lng);
  }

  lemma DistanceZeroAtSamePosition(mode: SystemMode, a: Device, b: Device, sqrt: real -> real)
    requires SqrtLaws(sqrt) && SamePosition(mode, a, b)
    ensures CalculateDistance(mode, a, b, sqrt) == 0.0
  {
    SqrtOfSquare(sqrt, 0.0);
  }

  /** The distance depends on nothing but the coordinates the mode consults. */
  lemma DistanceUsesModeCoordinatesOnly(mode: SystemMode, a: Device, b: Device, a': Device, b': Device, sqrt: real -> real)
    requires SamePosition(mode, a, a') && SamePosition(mode, b, b')
    ensures CalculateDistance(mode, a, b, sqrt) == CalculateDistance(mode, a', b', sqrt)
  {
  }

  lemma OutdoorScalesPlanar(a: Device, b: Device, sqrt: real -> real)
    ensures CalculateDistance(Outdoor, a, b, sqrt) == MetresPerDegree * Planar(a.lat - b.lat, a.lng - b.lng, sqrt)
  {
  }

  /**
   The risk comparison can be decided on squares: for a non-negative bound,
   the planar distance is below it exactly when the sum of squares is below
   its square.
   */
  lemma PlanarBelowIffSquares(dx: real, dy: real, bound: real, sqrt: real -> real)
    requires SqrtLaws(sqrt) && 0.0 <= bound
    ensures Planar(dx, dy, sqrt) < bound <==> dx * dx + dy * dy < bound * bound
  {
    var q := dx * dx + dy * dy;
    SumOfSquaresNonNegative(dx, dy);
    SqrtOfSquare(sqrt, bound);
    if q < bound * bound {
      SqrtStrictMonotone(sqrt, q, bound * bound);
    } else {
      SqrtMonotone(sqrt, bound * bound, q);
    }
  }

  /** Closer pairs are never farther apart: the metric is monotone in the squared offset. */
  lemma PlanarMonotone(dx: real, dy: real, ex: real, ey: real, sqrt: real -> real)
    requires SqrtLaws(sqrt)
    requires dx * dx + dy * dy <= ex * ex + ey * ey
    ensures Planar(dx, dy, sqrt) <= Planar(ex, ey, sqrt)
  {
    SumOfSquaresNonNegative(dx, dy);
    SqrtMonotone(sqrt, dx * dx + dy * dy, ex * ex + ey * ey);
  }

  // ─── Presentation rounding ───

  /** `Math.round(x * 100.0) / 100.0`, with `Math.round(v)` as the floor of `v + 0.5`. */
  function Round2(x: real): real {
    ((x * 100.0 + 0.5).Floor as real) / 100.0
  }

  lemma Round2Close(x: real)
    ensures x - 0.005 < Round2(x) <= x + 0.005
  {
    var f := (x * 100.0 + 0.5).Floor;
    assert f as real <= x * 100.0 + 0.5 < f as real + 1.0;
  }

  lemma Round2NonNegative(x: real)
    requires 0.0 <= x
    ensures 0.0 <= Round2(x)
  {
    var f := (x * 100.0 + 0.5).Floor;
    assert 0.0 < f as real + 1.0;
  }

  /** A value already given in hundredths is reported unchanged. */
  lemma Round2Hundredths(k: int)
    ensures Round2(k as real / 100.0) == k as real / 100.0
  {
    var v := k as real / 100.0 * 100.0 + 0.5;
    assert v == k as real + 0.5;
    assert v.Floor == k;
  }
}
