/**
 * Linear interpolation of tabulated fluid properties (the fluid-property service).
 *
 * A table is a sequence of property points, sorted ascending by temperature by the
 * repository that supplies it. A lookup either returns a stored point whose temperature
 * is within `ExactMatchTolerance` of the target, or a new point whose seven property
 * fields are each interpolated linearly between the two bracketing points.
 */
module FluidInterpolation {
  import opened Wrappers
  import opened RealMath

  /** A 128-bit identifier; the model only compares identifiers. */
  type Guid = nat

  /** One row of a fluid's property table. */
  datatype PropertyPoint = PropertyPoint(
    Id: Guid,
    FluidId: Guid,
    TemperatureK: real,
    Density: real,
    SpecificHeatAtConstantPressure: real,
    DynamicViscosity: real,
    KinematicViscosity: real,
    ThermalConductivity: real,
    ThermalDiffusivity: real,
    Prandtl: real)

  /** The exceptions the lookup throws. */
  datatype LookupError =
    | NoPropertyData(fluidId: Guid)                                    // InvalidOperationException
    | TemperatureOutOfRange(targetTempK: real, minTemp: real, maxTemp: real) // ArgumentOutOfRangeException
    | BoundingPointsNotFound                                           // InvalidOperationException

  /** Distance below which a bracketing point counts as an exact match. */
  const ExactMatchTolerance: real := 0.000001

  /** The order the repository returns a fluid's points in. */
  ghost predicate SortedByTemperature(points: seq<PropertyPoint>)
  {
    forall i, j :: 0 <= i <= j < |points| ==> points[i].TemperatureK <= points[j].TemperatureK
  }

  /** The target lies in the closed range spanned by the first and last points. */
  predicate InRange(points: seq<PropertyPoint>, targetTempK: real)
  {
    |points| > 0 && points[0].TemperatureK <= targetTempK <= points[|points| - 1].TemperatureK
  }

  predicate Within(y: real, y1: real, y2: real)
  {
    (y1 <= y <= y2) || (y2 <= y <= y1)
  }

  /** Every property field of `p` lies between the corresponding fields of `lower` and `upper`. */
  predicate FieldsBetween(p: PropertyPoint, lower: PropertyPoint, upper: PropertyPoint)
  {
    Within(p.Density, lower.Density, upper.Density) &&
    Within(p.SpecificHeatAtConstantPressure, lower.SpecificHeatAtConstantPressure, upper.SpecificHeatAtConstantPressure) &&
    Within(p.DynamicViscosity, lower.DynamicViscosity, upper.DynamicViscosity) &&
    Within(p.KinematicViscosity, lower.KinematicViscosity, upper.KinematicViscosity) &&
    Within(p.ThermalConductivity, lower.ThermalConductivity, upper.ThermalConductivity) &&
    Within(p.ThermalDiffusivity, lower.ThermalDiffusivity, upper.ThermalDiffusivity) &&
    Within(p.Prandtl, lower.Prandtl, upper.Prandtl)
  }

  /** The private `Interpolate` helper: the point at `fraction` of the way from `y1` to `y2`. */
  function Interpolate(y1: real, y2: real, fraction: real): (y: real)
    ensures fraction == 0.0 ==> y == y1
    ensures fraction == 1.0 ==> y == y2
    ensures 0.0 <= fraction <= 1.0 ==> Within(y, y1, y2)
  {
    if 0.0 <= fraction <= 1.0 then
      ScaledStep(y1, y2, fraction);
      y1 + (y2 - y1) * fraction
    else
      y1 + (y2 - y1) * fraction
  }

  /** Moving a fraction in [0, 1] of the way from `y1` to `y2` stays between them. */
  lemma ScaledStep(y1: real, y2: real, fraction: real)
    requires 0.0 <= fraction <= 1.0
    ensures Within(y1 + (y2 - y1) * fraction, y1, y2)
  {
    var d := y2 - y1;
    if d >= 0.0 {
      ProductNonNegative(d, fraction);
      ProductNonNegative(d, 1.0 - fraction);
    } else {
      ProductNonNegative(-d, fraction);
      ProductNonNegative(-d, 1.0 - fraction);
    }
  }

  /** Where `t` lies between `t1` and `t2`, as a fraction of the interval. */
  function Fraction(t1: real, t2: real, t: real): (f: real)
    requires t1 < t2 && t1 <= t <= t2
    ensures 0.0 <= f <= 1.0
    ensures f == 0.0 <==> t == t1
    ensures f == 1.0 <==> t == t2
  {
    QuotientInUnit(t - t1, t2 - t1);
    (t - t1) / (t2 - t1)
  }

  /**
   * The new point the service builds between two bracketing points: a fresh identifier,
   * the requested fluid, exactly the requested temperature, and each property field
   * interpolated on its own.
   */
  function Interpolated(fluidId: Guid, newId: Guid, lower: PropertyPoint, upper: PropertyPoint, targetTempK: real): (p: PropertyPoint)
    requires lower.TemperatureK < upper.TemperatureK
    requires lower.TemperatureK <= targetTempK <= upper.TemperatureK
    ensures p.Id == newId && p.FluidId == fluidId
    ensures p.TemperatureK == targetTempK
    ensures FieldsBetween(p, lower, upper)
    ensures targetTempK == lower.TemperatureK ==> p == lower.(Id := newId, FluidId := fluidId)
    ensures targetTempK == upper.TemperatureK ==> p == upper.(Id := newId, FluidId := fluidId)
  {
    var fraction := Fraction(lower.TemperatureK, upper.TemperatureK, targetTempK);
    PropertyPoint(
      newId,
      fluidId,
      targetTempK,
      Interpolate(lower.Density, upper.Density, fraction),
      Interpolate(lower.SpecificHeatAtConstantPressure, upper.SpecificHeatAtConstantPressure, fraction),
      Interpolate(lower.DynamicViscosity, upper.DynamicViscosity, fraction),
      Interpolate(lower.KinematicViscosity, upper.KinematicViscosity, fraction),
      Interpolate(lower.ThermalConductivity, upper.ThermalConductivity, fraction),
      Interpolate(lower.ThermalDiffusivity, upper.ThermalDiffusivity, fraction),
      Interpolate(lower.Prandtl, upper.Prandtl, fraction))
  }

  /** The index of the first point whose temperature is at or above the target, if there is one. */
  function FirstAtOrAbove(points: seq<PropertyPoint>, targetTempK: real): (k: Option<nat>)
    ensures k.Some? ==> k.value < |points| && points[k.value].TemperatureK >= targetTempK
    ensures k.Some? ==> forall j :: 0 <= j < k.value ==> points[j].TemperatureK < targetTempK
    ensures k.None? ==> forall j :: 0 <= j < |points| ==> points[j].TemperatureK < targetTempK
  {
    if |points| == 0 then None
    else if points[0].TemperatureK >= targetTempK then Some(0)
    else match FirstAtOrAbove(points[1..], targetTempK)
      case Some(k) => Some(k + 1)
      case None => None
  }

  /** The upper bracket: the first point at or above the target. */
  function UpperBracket(points: seq<PropertyPoint>, targetTempK: real): (p: Option<PropertyPoint>)
    ensures p.Some? <==> exists j :: 0 <= j < |points| && points[j].TemperatureK >= targetTempK
    ensures p.Some? ==> p.value.TemperatureK >= targetTempK
    ensures p.Some? ==>
      exists k :: 0 <= k < |points| && p.value == points[k] &&
        forall j :: 0 <= j < k ==> points[j].TemperatureK < targetTempK
  {
    match FirstAtOrAbove(points, targetTempK)
    case Some(k) => Some(points[k])
    case None => None
  }

  /**
   * The lower bracket the scan leaves behind: the upper bracket itself when it is at or
   * below the target, otherwise the point just before it; with no upper bracket, the last point.
   */
  function LowerBracket(points: seq<PropertyPoint>, targetTempK: real): (p: Option<PropertyPoint>)
    ensures p.Some? <==> |points| > 0 && points[0].TemperatureK <= targetTempK
    ensures p.Some? ==> p.value in points && p.value.TemperatureK <= targetTempK
    ensures p.Some? && UpperBracket(points, targetTempK).Some? ==>
      || p == UpperBracket(points, targetTempK)
      || exists k :: 0 < k < |points| && UpperBracket(points, targetTempK) == Some(points[k]) && p.value == points[k - 1]
    ensures |points| > 0 && UpperBracket(points, targetTempK).None? ==> p == Some(points[|points| - 1])
  {
    match FirstAtOrAbove(points, targetTempK)
    case Some(k) =>
      if points[k].TemperatureK <= targetTempK then Some(points[k])
      else if k > 0 then Some(points[k - 1])
      else None
    case None => if |points| > 0 then Some(points[|points| - 1]) else None
  }

  /**
   * What a lookup of `targetTempK` in `points` returns. `newId` stands for the identifier
   * the service generates for an interpolated point.
   */
  function Lookup(fluidId: Guid, points: seq<PropertyPoint>, targetTempK: real, newId: Guid): (r: Result<PropertyPoint, LookupError>)
    ensures |points| == 0 ==> r == Failure(NoPropertyData(fluidId))
    ensures |points| > 0 && !InRange(points, targetTempK) ==>
      r == Failure(TemperatureOutOfRange(targetTempK, points[0].TemperatureK, points[|points| - 1].TemperatureK))
    ensures InRange(points, targetTempK) ==> r.Success?
    ensures r.Success? ==>
      || (r.value in points && Abs(r.value.TemperatureK - targetTempK) < ExactMatchTolerance)
      || (&& r.value.TemperatureK == targetTempK
          && r.value.Id == newId && r.value.FluidId == fluidId
          && exists k :: 0 < k < |points|
               && points[k - 1].TemperatureK < targetTempK < points[k].TemperatureK
               && FieldsBetween(r.value, points[k - 1], points[k]))
  {
    if |points| == 0 then
      Failure(NoPropertyData(fluidId))
    else if targetTempK < points[0].TemperatureK || targetTempK > points[|points| - 1].TemperatureK then
      Failure(TemperatureOutOfRange(targetTempK, points[0].TemperatureK, points[|points| - 1].TemperatureK))
    else
      var lower := LowerBracket(points, targetTempK);
      var upper := UpperBracket(points, targetTempK);
      if lower.Some? && Abs(lower.value.TemperatureK - targetTempK) < ExactMatchTolerance then
        Success(lower.value)
      else if upper.Some? && Abs(upper.value.TemperatureK - targetTempK) < ExactMatchTolerance then
        Success(upper.value)
      else if lower.None? || upper.None? then
        Failure(BoundingPointsNotFound)
      else
        var k := FirstAtOrAbove(points, targetTempK).value;
        assert k > 0 && lower.value == points[k - 1] && upper.value == points[k];
        Success(Interpolated(fluidId, newId, lower.value, upper.value, targetTempK))
  }

  /**
   * The service's lookup. The repository fetch is replaced by the table it would return,
   * and `Guid.NewGuid()` by `newId`.
   */
  method GetPropertiesForTemperature(fluidId: Guid, allPoints: seq<PropertyPoint>, targetTempK: real, newId: Guid)
    returns (r: Result<PropertyPoint, LookupError>)
    requires SortedByTemperature(allPoints)
    ensures r == Lookup(fluidId, allPoints, targetTempK, newId)
  {
    if |allPoints| == 0 {
      return Failure(NoPropertyData(fluidId));
    }

    var minTemp := allPoints[0].TemperatureK;
    var maxTemp := allPoints[|allPoints| - 1].TemperatureK;

    if targetTempK < minTemp || targetTempK > maxTemp {
      return Failure(TemperatureOutOfRange(targetTempK, minTemp, maxTemp));
    }

    var lowerPoint: Option<PropertyPoint> := None;
    var upperPoint: Option<PropertyPoint> := None;

    for i := 0 to |allPoints|
      invariant upperPoint.None?
      invariant forall j :: 0 <= j < i ==> allPoints[j].TemperatureK < targetTempK
      invariant lowerPoint == if i == 0 then None else Some(allPoints[i - 1])
    {
      if allPoints[i].TemperatureK <= targetTempK {
        lowerPoint := Some(allPoints[i]);
      }

      if allPoints[i].TemperatureK >= targetTempK && upperPoint.None? {
        upperPoint := Some(allPoints[i]);
        assert FirstAtOrAbove(allPoints, targetTempK) == Some(i);
        break;
      }
    }
    assert lowerPoint == LowerBracket(allPoints, targetTempK);
    assert upperPoint == UpperBracket(allPoints, targetTempK);

    if lowerPoint.Some? && Abs(lowerPoint.value.TemperatureK - targetTempK) < ExactMatchTolerance {
      return Success(lowerPoint.value);
    }

    if upperPoint.Some? && Abs(upperPoint.value.TemperatureK - targetTempK) < ExactMatchTolerance {
      return Success(upperPoint.value);
    }

    if lowerPoint.None? || upperPoint.None? {
      // The range check above leaves no way for either bracket to be missing.
      assert false;
      return Failure(BoundingPointsNotFound);
    }

    r := Success(Interpolated(fluidId, newId, lowerPoint.value, upperPoint.value, targetTempK));
  }

  /**
   * When some tabulated point is within the tolerance of the target, the lookup returns a
   * stored point (never a fabricated one) that is itself within the tolerance.
   */
  lemma NearTabulatedReturnsStoredPoint(fluidId: Guid, points: seq<PropertyPoint>, targetTempK: real, newId: Guid, j: nat)
    requires SortedByTemperature(points) && InRange(points, targetTempK)
    requires j < |points| && Abs(points[j].TemperatureK - targetTempK) < ExactMatchTolerance
    ensures Lookup(fluidId, points, targetTempK, newId).Success?
    ensures Lookup(fluidId, points, targetTempK, newId).value in points
    ensures Abs(Lookup(fluidId, points, targetTempK, newId).value.TemperatureK - targetTempK) < ExactMatchTolerance
  {
    var k := FirstAtOrAbove(points, targetTempK).value;
    if points[j].TemperatureK >= targetTempK {
      // points[k] lies between the target and points[j].
      assert k <= j;
      assert points[k].TemperatureK <= points[j].TemperatureK;
    } else {
      // points[j] is below the target, so it comes before k and the point just before k is at least as close.
      assert j < k;
      if points[k].TemperatureK > targetTempK {
        assert points[j].TemperatureK <= points[k - 1].TemperatureK;
      }
    }
  }

  /**
   * A target equal to a tabulated temperature returns the first point with exactly that
   * temperature, unchanged.
   */
  lemma TabulatedTemperatureReturnsThatPoint(fluidId: Guid, points: seq<PropertyPoint>, newId: Guid, j: nat)
    requires SortedByTemperature(points)
    requires j < |points|
    ensures
      var k := FirstAtOrAbove(points, points[j].TemperatureK).value;
      k <= j && points[k].TemperatureK == points[j].TemperatureK &&
      Lookup(fluidId, points, points[j].TemperatureK, newId) == Success(points[k])
  {
    var t := points[j].TemperatureK;
    assert points[0].TemperatureK <= t <= points[|points| - 1].TemperatureK;
    var k := FirstAtOrAbove(points, t).value;
    assert k <= j;
    assert points[k].TemperatureK <= t;
  }
}
