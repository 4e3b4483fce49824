/**
 * The request validators of the backend. Each takes raw request values and
 * returns the same tuple shape as the Python code: `(ok, message)` or, for
 * severity, `(ok, message, value)`.
 */
module Validators {
  import opened Wrappers
  import opened PyStr
  import opened PyNum
  import opened PyValue

  /** `(ok, message)` as returned by the coordinate, event type and status validators. */
  datatype Verdict = Verdict(ok: bool, message: Option<string>)

  /** `(ok, message, value)` as returned by the severity validator. */
  datatype SeverityVerdict = SeverityVerdict(ok: bool, message: Option<string>, value: Option<int>)

  /** The outcome of a Python call that may let an exception escape. */
  datatype Raised<T> = Returned(result: T) | Raises(exception: string)

  const LatitudeMessage := "Latitude must be between -90 and 90"
  const LongitudeMessage := "Longitude must be between -180 and 180"
  const CoordinateFormatMessage := "Invalid coordinate format"

  /** `lo <= f <= hi` as a mathematician reads it: only finite values can be in range. */
  predicate InClosedRange(f: Float, lo: real, hi: real) {
    f.Finite? && lo <= f.value <= hi
  }

  /** `f < lo or f > hi` evaluated with Python's float comparisons. */
  predicate OutsideAsWritten(f: Float, lo: real, hi: real) {
    FloatLess(f, Finite(lo)) || FloatLess(Finite(hi), f)
  }

  /**
   * `validate_coordinates` as written: both values are converted first, then
   * the latitude and then the longitude is compared with its bounds. A NaN
   * passes both comparisons, and the OverflowError of `float()` on a huge
   * integer is not among the exceptions handled.
   */
  function ValidateCoordinatesAsWritten(latitude: Value, longitude: Value): (r: Raised<Verdict>)
    ensures r.Raises? <==>
      ToFloat(latitude).FloatOverflow? || (ToFloat(latitude).AsFloat? && ToFloat(longitude).FloatOverflow?)
    ensures r.Returned? ==> (r.result.ok <==> r.result.message == None)
    ensures r.Returned? && r.result.ok ==> ToFloat(latitude).AsFloat? && ToFloat(longitude).AsFloat?
  {
    match ToFloat(latitude)
    case NotAFloat => Returned(Verdict(false, Some(CoordinateFormatMessage)))
    case FloatOverflow => Raises("OverflowError")
    case AsFloat(lat) =>
      match ToFloat(longitude)
      case NotAFloat => Returned(Verdict(false, Some(CoordinateFormatMessage)))
      case FloatOverflow => Raises("OverflowError")
      case AsFloat(lon) =>
        if OutsideAsWritten(lat, -90.0, 90.0) then Returned(Verdict(false, Some(LatitudeMessage)))
        else if OutsideAsWritten(lon, -180.0, 180.0) then Returned(Verdict(false, Some(LongitudeMessage)))
        else Returned(Verdict(true, None))
  }

  /** `validate_coordinates("nan", 0)` returns `(True, None)`. */
  lemma CoordinatesAsWrittenAcceptNaN()
    ensures ValidateCoordinatesAsWritten(Text("nan"), Int(0)) == Returned(Verdict(true, None))
    ensures ValidateCoordinatesAsWritten(Num(NaN), Num(NaN)) == Returned(Verdict(true, None))
  {
    hide ParseFloat;
    ParseFloatOfNan();
    assert ToFloat(Text("nan")) == AsFloat(NaN);
  }

  /** `validate_coordinates(n, 0)` and `validate_coordinates(0, n)` raise for an integer `n` too large for a double. */
  lemma CoordinatesAsWrittenRaiseOnHugeInteger(n: int)
    requires !FitsFloat(n)
    ensures ValidateCoordinatesAsWritten(Int(n), Int(0)) == Raises("OverflowError")
    ensures ValidateCoordinatesAsWritten(Int(0), Int(n)) == Raises("OverflowError")
  {
  }

  /**
   * `validate_coordinates` with NaN treated as out of range, as its messages
   * intend, and an overflowing conversion handled like the other conversion
   * failures, as its handler intends. Everything else is as written.
   */
  function ValidateCoordinates(latitude: Value, longitude: Value): (v: Verdict)
    ensures v.ok <==> v.message == None
    ensures v.ok <==>
      && ToFloat(latitude).AsFloat? && InClosedRange(ToFloat(latitude).value, -90.0, 90.0)
      && ToFloat(longitude).AsFloat? && InClosedRange(ToFloat(longitude).value, -180.0, 180.0)
    ensures !ToFloat(latitude).AsFloat? || !ToFloat(longitude).AsFloat? ==>
      v.message == Some(CoordinateFormatMessage)
    ensures ToFloat(latitude).AsFloat? && ToFloat(longitude).AsFloat? && !InClosedRange(ToFloat(latitude).value, -90.0, 90.0) ==>
      v.message == Some(LatitudeMessage)
    ensures
      (&& ToFloat(latitude).AsFloat? && ToFloat(longitude).AsFloat?
       && InClosedRange(ToFloat(latitude).value, -90.0, 90.0)
       && !InClosedRange(ToFloat(longitude).value, -180.0, 180.0))
      ==> v.message == Some(LongitudeMessage)
  {
    match (ToFloat(latitude), ToFloat(longitude))
    case (AsFloat(lat), AsFloat(lon)) =>
      if lat == NaN || OutsideAsWritten(lat, -90.0, 90.0) then Verdict(false, Some(LatitudeMessage))
      else if lon == NaN || OutsideAsWritten(lon, -180.0, 180.0) then Verdict(false, Some(LongitudeMessage))
      else Verdict(true, None)
    case _ => Verdict(false, Some(CoordinateFormatMessage))
  }

  /** The correction changes nothing for inputs that neither convert to NaN nor overflow. */
  lemma CoordinatesCorrectionOnlyAffectsNaNAndOverflow(latitude: Value, longitude: Value)
    requires ToFloat(latitude) != AsFloat(NaN) && ToFloat(longitude) != AsFloat(NaN)
    requires !ToFloat(latitude).FloatOverflow? && !ToFloat(longitude).FloatOverflow?
    ensures ValidateCoordinatesAsWritten(latitude, longitude) == Returned(ValidateCoordinates(latitude, longitude))
  {
  }

  /** The corrected validator rejects the NaN input that the one as written accepts. */
  lemma CoordinatesCorrectedRejectNaN()
    ensures ValidateCoordinates(Text("nan"), Int(0)) == Verdict(false, Some(LatitudeMessage))
    ensures ValidateCoordinates(Int(0), Num(NaN)) == Verdict(false, Some(LongitudeMessage))
  {
    hide ParseFloat;
    ParseFloatOfNan();
    assert ToFloat(Text("nan")) == AsFloat(NaN);
  }

  /** The corrected validator answers a huge integer with the format message instead of raising. */
  lemma CoordinatesCorrectedRejectHugeInteger(n: int)
    requires !FitsFloat(n)
    ensures ValidateCoordinates(Int(n), Int(0)) == Verdict(false, Some(CoordinateFormatMessage))
    ensures ValidateCoordinates(Int(0), Int(n)) == Verdict(false, Some(CoordinateFormatMessage))
  {
  }

  const EventTypes: seq<string> :=
    ["accident", "construction", "traffic_jam", "road_closure", "hazard", "police", "other"]

  /** The rejection message lists the accepted names, separated by commas. */
  const EventTypeMessage := "Invalid event type. Must be one of: " + Join(", ", EventTypes)

  /** `validate_event_type`: the value must be one of the seven event type names, exactly as spelt. */
  function ValidateEventType(eventType: Value): (v: Verdict)
    ensures v.ok <==> v.message == None
    ensures v.ok <==> eventType in {Text("accident"), Text("construction"), Text("traffic_jam"),
                                    Text("road_closure"), Text("hazard"), Text("police"), Text("other")}
    ensures !v.ok ==> v.message == Some(EventTypeMessage)
  {
    if !(eventType.Text? && eventType.text in EventTypes) then
      Verdict(false, Some(EventTypeMessage))
    else
      Verdict(true, None)
  }

  const SeverityRangeMessage := "Severity must be between 1 and 5"
  const SeverityFormatMessage := "Severity must be a number between 1 and 5"

  /**
   * `validate_severity` as written: `int(severity)` inside a handler for
   * ValueError and TypeError only, so the OverflowError that `int` raises for
   * an infinite float escapes.
   */
  function ValidateSeverityAsWritten(severity: Value): (r: Raised<SeverityVerdict>)
    ensures r.Raises? <==> severity == Num(PosInf) || severity == Num(NegInf)
    ensures r.Returned? && r.result.ok ==> r.result.value.Some? && 1 <= r.result.value.value <= 5
  {
    match ToInt(severity)
    case Converted(sev) =>
      if sev < 1 || sev > 5 then Returned(SeverityVerdict(false, Some(SeverityRangeMessage), None))
      else Returned(SeverityVerdict(true, None, Some(sev)))
    case ValueOrTypeError => Returned(SeverityVerdict(false, Some(SeverityFormatMessage), None))
    case Overflow => Raises("OverflowError")
  }

  /** `validate_severity(float('inf'))` raises instead of returning a verdict. */
  lemma SeverityAsWrittenRaisesOnInfinity()
    ensures ValidateSeverityAsWritten(Num(PosInf)) == Raises("OverflowError")
    ensures ValidateSeverityAsWritten(Num(NegInf)) == Raises("OverflowError")
  {
  }

  /**
   * `validate_severity` with an overflowing conversion handled like the other
   * conversion failures, as the handler intends. Returns `(True, None, sev)`
   * exactly when `int(severity)` is a number from 1 to 5.
   */
  function ValidateSeverity(severity: Value): (v: SeverityVerdict)
    ensures v.ok <==> ToInt(severity).Converted? && 1 <= ToInt(severity).value <= 5
    ensures v.ok ==> v.message == None && v.value == Some(ToInt(severity).value)
    ensures !v.ok ==> v.message.Some? && v.value == None
    ensures ToInt(severity).Converted? && !v.ok ==> v.message == Some(SeverityRangeMessage)
    ensures !ToInt(severity).Converted? ==> v.message == Some(SeverityFormatMessage)
  {
    match ToInt(severity)
    case Converted(sev) =>
      if sev < 1 || sev > 5 then SeverityVerdict(false, Some(SeverityRangeMessage), None)
      else SeverityVerdict(true, None, Some(sev))
    case _ => SeverityVerdict(false, Some(SeverityFormatMessage), None)
  }

  /** The correction changes nothing for inputs whose conversion does not overflow. */
  lemma SeverityCorrectionOnlyAffectsOverflow(severity: Value)
    requires !ToInt(severity).Overflow?
    ensures ValidateSeverityAsWritten(severity) == Returned(ValidateSeverity(severity))
  {
  }

  /** A severity sent as a JSON integer `n` is accepted exactly when `1 <= n <= 5`, with value `n`. */
  lemma SeverityFromInteger(n: int)
    ensures ValidateSeverity(Int(n)).ok <==> 1 <= n <= 5
    ensures 1 <= n <= 5 ==> ValidateSeverity(Int(n)).value == Some(n)
  {
  }

  /** A severity sent as the decimal string of `n` is accepted exactly when `1 <= n <= 5`, with value `n`. */
  lemma SeverityFromString(n: int)
    ensures ValidateSeverity(Text(IntToString(n))).ok <==> 1 <= n <= 5
    ensures 1 <= n <= 5 ==> ValidateSeverity(Text(IntToString(n))).value == Some(n)
  {
    ParseIntOfIntToString(n);
  }

  /** A severity sent as a float is truncated toward zero: 4.7 is accepted as 4, 5.9 as 5, 0.5 is rejected. */
  lemma SeverityFromFloat(x: real)
    ensures ValidateSeverity(Num(Finite(x))).ok <==> 1.0 <= x < 6.0
    ensures 1.0 <= x < 6.0 ==> ValidateSeverity(Num(Finite(x))).value == Some(x.Floor)
  {
  }

  const Statuses: seq<string> := ["active", "resolved", "expired"]

  const StatusMessage := "Invalid status. Must be one of: " + Join(", ", Statuses)

  /** `validate_status`: only `active`, `resolved` and `expired` are accepted. */
  function ValidateStatus(status: Value): (v: Verdict)
    ensures v.ok <==> v.message == None
    ensures v.ok <==> status in {Text("active"), Text("resolved"), Text("expired")}
    ensures !v.ok ==> v.message == Some(StatusMessage)
  {
    if !(status.Text? && status.text in Statuses) then
      Verdict(false, Some(StatusMessage))
    else
      Verdict(true, None)
  }
}
