/**
 * `_calculate_impact_score`: how many points an incident at a given distance
 * from the route takes off the route's safety score. A piecewise base impact
 * of the distance, scaled by the severity, by 1.5 when the incident's type
 * is one the traveller asked to avoid, rounded half to even and floored at 0.
 */
module ImpactScore {
  import opened PyNum

  const CriticalDistanceKm: real := 0.05
  const DangerDistanceKm: real := 0.2
  const WarningDistanceKm: real := 0.5
  const MaxReportDistanceKm: real := 1.0

  const AvoidedFactor: real := 1.5

  function Max(a: int, b: int): int {
    if a < b then b else a
  }

  function Min(a: int, b: int): int {
    if a < b then a else b
  }

  function MinReal(a: real, b: real): real {
    if a < b then a else b
  }

  /** `0.4 + severity * 0.2`: 0.6 to 1.4 for severities 1 to 5, growing with the severity. */
  function SeverityMultiplier(severity: int): (m: real)
    ensures 1 <= severity <= 5 ==> 0.6 <= m <= 1.4
    ensures severity == 1 ==> m == 0.6
    ensures severity == 5 ==> m == 1.4
    ensures 0.0 <= m <==> -2 <= severity
  {
    0.4 + severity as real * 0.2
  }

  lemma SeverityMultiplierIncreasing(s1: int, s2: int)
    requires s1 < s2
    ensures SeverityMultiplier(s1) < SeverityMultiplier(s2)
  {
  }

  /**
   * The impact before scaling: 20 up to the critical distance, then linear
   * from 15 down to 5 across the danger zone, from 5 down to 1 across the
   * warning zone and from 1 down to 0 up to the reporting distance, 0 beyond.
   */
  function BaseImpact(distanceKm: real): (b: real)
    ensures 0.0 <= b <= 20.0
    ensures b == 20.0 <==> distanceKm <= CriticalDistanceKm
    ensures CriticalDistanceKm < distanceKm <= DangerDistanceKm ==> 5.0 <= b < 15.0
    ensures DangerDistanceKm < distanceKm <= WarningDistanceKm ==> 1.0 <= b < 5.0
    ensures WarningDistanceKm < distanceKm ==> b < 1.0
    ensures b == 0.0 <==> MaxReportDistanceKm <= distanceKm
  {
    if distanceKm <= CriticalDistanceKm then
      20.0
    else if distanceKm <= DangerDistanceKm then
      var ratio := (distanceKm - CriticalDistanceKm) / (DangerDistanceKm - CriticalDistanceKm);
      15.0 - ratio * 10.0
    else if distanceKm <= WarningDistanceKm then
      var ratio := (distanceKm - DangerDistanceKm) / (WarningDistanceKm - DangerDistanceKm);
      5.0 - ratio * 4.0
    else
      var ratio := MinReal(1.0, (distanceKm - WarningDistanceKm) / (MaxReportDistanceKm - WarningDistanceKm));
      1.0 - ratio * 1.0
  }

  /** The base impact never grows with the distance. */
  lemma BaseImpactNonIncreasing(d1: real, d2: real)
    requires d1 <= d2
    ensures BaseImpact(d2) <= BaseImpact(d1)
  {
  }

  /** The product of a base impact and a multiplier. */
  function Times(x: real, y: real): real {
    x * y
  }

  /** `impact`, times 1.5 when the incident's type is avoided. */
  function Scaled(impact: real, isAvoidedType: bool): real {
    if isAvoidedType then impact * AvoidedFactor else impact
  }

  /** The impact before rounding: base times severity multiplier, times 1.5 when avoided. */
  function RawImpact(distanceKm: real, severity: int, isAvoidedType: bool): real {
    Scaled(Times(BaseImpact(distanceKm), SeverityMultiplier(severity)), isAvoidedType)
  }

  lemma ScaleMonotone(x: real, y: real, isAvoidedType: bool)
    requires x <= y
    ensures Scaled(x, isAvoidedType) <= Scaled(y, isAvoidedType)
  {
  }

  /** `_calculate_impact_score`: `max(0, int(round(impact)))`, so never negative. */
  function CalculateImpactScore(distanceKm: real, severity: int, isAvoidedType: bool): (score: int)
    ensures 0 <= score
  {
    Max(0, RoundHalfEven(RawImpact(distanceKm, severity, isAvoidedType)))
  }

  lemma MulNonNegative(x: real, y: real)
    requires 0.0 <= x && 0.0 <= y
    ensures 0.0 <= x * y
  {
  }

  /** A smaller base gives a smaller product with a non-negative multiplier. */
  lemma TimesMonotoneInBase(x: real, y: real, m: real)
    requires x <= y && 0.0 <= m
    ensures Times(x, m) <= Times(y, m)
  {
    MulNonNegative(y - x, m);
    calc {
      Times(y, m) - Times(x, m);
    ==
      y * m - x * m;
    ==
      (y - x) * m;
    >=
      0.0;
    }
  }

  /** A smaller multiplier gives a smaller product with a non-negative base. */
  lemma TimesMonotoneInMultiplier(b: real, m1: real, m2: real)
    requires 0.0 <= b && m1 <= m2
    ensures Times(b, m1) <= Times(b, m2)
  {
    MulNonNegative(b, m2 - m1);
    calc {
      Times(b, m2) - Times(b, m1);
    ==
      b * m2 - b * m1;
    ==
      b * (m2 - m1);
    >=
      0.0;
    }
  }

  /** The score a raw impact rounds to: `max(0, round(x))`, which never decreases with `x`. */
  lemma ClampedRoundMonotone(x: real, y: real)
    requires x <= y
    ensures Max(0, RoundHalfEven(x)) <= Max(0, RoundHalfEven(y))
  {
    RoundMonotone(x, y);
  }

  /** From the reporting distance on, an incident scores 0. */
  lemma ImpactZeroBeyondReport(distanceKm: real, severity: int, isAvoidedType: bool)
    requires MaxReportDistanceKm <= distanceKm
    ensures CalculateImpactScore(distanceKm, severity, isAvoidedType) == 0
  {
    assert Times(BaseImpact(distanceKm), SeverityMultiplier(severity)) == 0.0;
    RoundOfInteger(0);
  }

  /** A severity below -2 makes the multiplier negative, and the score 0. */
  lemma ImpactZeroForNegativeMultiplier(distanceKm: real, severity: int, isAvoidedType: bool)
    requires severity < -2
    ensures CalculateImpactScore(distanceKm, severity, isAvoidedType) == 0
  {
    var b, m := BaseImpact(distanceKm), SeverityMultiplier(severity);
    TimesMonotoneInMultiplier(b, m, 0.0);
    assert Times(b, 0.0) == 0.0;
    ScaleMonotone(Times(b, m), 0.0, isAvoidedType);
    ClampedRoundMonotone(RawImpact(distanceKm, severity, isAvoidedType), 0.0);
    RoundOfInteger(0);
  }

  /** The unrounded impact never grows with the distance, for a non-negative multiplier. */
  lemma RawImpactNonIncreasing(d1: real, d2: real, severity: int, isAvoidedType: bool)
    requires d1 <= d2 && -2 <= severity
    ensures RawImpact(d2, severity, isAvoidedType) <= RawImpact(d1, severity, isAvoidedType)
  {
    var b1, b2, m := BaseImpact(d1), BaseImpact(d2), SeverityMultiplier(severity);
    BaseImpactNonIncreasing(d1, d2);
    TimesMonotoneInBase(b2, b1, m);
    ScaleMonotone(Times(b2, m), Times(b1, m), isAvoidedType);
  }

  /** Farther incidents never score higher, whatever the severity and the avoided flag. */
  lemma ImpactNonIncreasingInDistance(d1: real, d2: real, severity: int, isAvoidedType: bool)
    requires d1 <= d2
    ensures CalculateImpactScore(d2, severity, isAvoidedType) <= CalculateImpactScore(d1, severity, isAvoidedType)
  {
    if -2 <= severity {
      RawImpactNonIncreasing(d1, d2, severity, isAvoidedType);
      ClampedRoundMonotone(RawImpact(d2, severity, isAvoidedType), RawImpact(d1, severity, isAvoidedType));
    } else {
      ImpactZeroForNegativeMultiplier(d1, severity, isAvoidedType);
      ImpactZeroForNegativeMultiplier(d2, severity, isAvoidedType);
    }
  }

  /** More severe incidents never score lower. */
  lemma ImpactNonDecreasingInSeverity(distanceKm: real, s1: int, s2: int, isAvoidedType: bool)
    requires s1 <= s2
    ensures CalculateImpactScore(distanceKm, s1, isAvoidedType) <= CalculateImpactScore(distanceKm, s2, isAvoidedType)
  {
    var b := BaseImpact(distanceKm);
    TimesMonotoneInMultiplier(b, SeverityMultiplier(s1), SeverityMultiplier(s2));
    ScaleMonotone(Times(b, SeverityMultiplier(s1)), Times(b, SeverityMultiplier(s2)), isAvoidedType);
    ClampedRoundMonotone(RawImpact(distanceKm, s1, isAvoidedType), RawImpact(distanceKm, s2, isAvoidedType));
  }

  /** Being an avoided type never lowers the score of an incident. */
  lemma AvoidedNeverLowers(distanceKm: real, severity: int)
    ensures CalculateImpactScore(distanceKm, severity, false) <= CalculateImpactScore(distanceKm, severity, true)
  {
    var impact := Times(BaseImpact(distanceKm), SeverityMultiplier(severity));
    if 0.0 <= impact {
      ClampedRoundMonotone(RawImpact(distanceKm, severity, false), RawImpact(distanceKm, severity, true));
    } else {
      ClampedRoundMonotone(RawImpact(distanceKm, severity, false), 0.0);
      ClampedRoundMonotone(RawImpact(distanceKm, severity, true), 0.0);
      RoundOfInteger(0);
    }
  }

  /** For severities 1 to 5 the score is at most 28, or 42 for an avoided type. */
  lemma ImpactBounded(distanceKm: real, severity: int, isAvoidedType: bool)
    requires 1 <= severity <= 5
    ensures CalculateImpactScore(distanceKm, severity, isAvoidedType) <= if isAvoidedType then 42 else 28
  {
    var b, m := BaseImpact(distanceKm), SeverityMultiplier(severity);
    TimesMonotoneInBase(b, 20.0, m);
    assert Times(20.0, m) <= 28.0;
    ScaleMonotone(Times(b, m), 28.0, isAvoidedType);
    var top := if isAvoidedType then 42 else 28;
    ClampedRoundMonotone(RawImpact(distanceKm, severity, isAvoidedType), top as real);
    RoundOfInteger(top);
  }

  /**
   * Within the critical distance a severity 1 to 5 incident scores 12 to 28,
   * or 18 to 42 for an avoided type.
   */
  lemma CriticalZoneScores(distanceKm: real, severity: int, isAvoidedType: bool)
    requires distanceKm <= CriticalDistanceKm
    requires 1 <= severity <= 5
    ensures var score := CalculateImpactScore(distanceKm, severity, isAvoidedType);
      if isAvoidedType then 18 <= score <= 42 else 12 <= score <= 28
  {
    var m := SeverityMultiplier(severity);
    assert Times(BaseImpact(distanceKm), m) == 20.0 * m;
    ImpactBounded(distanceKm, severity, isAvoidedType);
    var bottom := if isAvoidedType then 18 else 12;
    ClampedRoundMonotone(bottom as real, RawImpact(distanceKm, severity, isAvoidedType));
    RoundOfInteger(bottom);
  }
}
