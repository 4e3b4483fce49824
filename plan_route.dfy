/**
 * The decisions `plan_route` takes on a request body before it touches the
 * database: defaults for missing fields, the start and end coordinates, the
 * travel mode, the shape of `avoid_types`, and the normalised form of the
 * avoid types that is stored with the request.
 */
module PlanRoute {
  import opened Wrappers
  import opened PyStr
  import opened PyNum
  import opened PyValue
  import opened Validators

  /** `TRAVEL_MODES`. */
  const TravelModes: seq<string> := ["car", "bicycle", "pedestrian"]

  /** `sorted(TRAVEL_MODES)`, as the mode error message lists it. */
  lemma SortedTravelModes()
    ensures SortedDistinct(TravelModes) == ["bicycle", "car", "pedestrian"]
  {
    var listed: seq<string> := ["bicycle", "car", "pedestrian"];
    assert LexLess("bicycle", "car") && LexLess("bicycle", "pedestrian") && LexLess("car", "pedestrian");
    assert StrictlySorted(listed);
    StrictlySortedUnique(SortedDistinct(TravelModes), listed);
  }

  /** `v or default`. */
  function Or(v: Value, default: Value): (r: Value)
    ensures Truthy(v) ==> r == v
    ensures !Truthy(v) ==> r == default
  {
    if Truthy(v) then v else default
  }

  const EmptyDict: Value := Dict(map[])

  /** `(payload.get('mode') or 'car').lower()`; `None` is the AttributeError a truthy non-string raises. */
  function ResolveMode(raw: Value): (mode: Option<string>)
    ensures !Truthy(raw) ==> mode == Some("car")
    ensures raw.Text? && raw.text != [] ==> mode == Some(Lower(raw.text))
    ensures mode.None? <==> Truthy(raw) && !raw.Text?
  {
    assert Lower("car") == "car";
    match Or(raw, Text("car"))
    case Text(s) => Some(Lower(s))
    case _ => None
  }

  /** The message for a mode outside `TRAVEL_MODES`. */
  function ModeMessage(mode: string): string {
    "Invalid mode '" + mode + "'. Must be one of " + Join(", ", SortedDistinct(TravelModes))
  }

  /** The mode message lists the modes in alphabetical order. */
  lemma ModeMessageText(mode: string)
    ensures ModeMessage(mode) == "Invalid mode '" + mode + "'. Must be one of bicycle, car, pedestrian"
  {
    SortedTravelModes();
  }

  /** What `_validate_coordinate_payload` returns, or the AttributeError `.get` raises on a non-dict. */
  datatype CoordinateOutcome = Coordinates(lat: real, lon: real) | CoordinateError(message: string) | NotADict

  /** `_validate_coordinate_payload(prefix, payload)`, with the corrected coordinate validator. */
  function ValidateCoordinatePayload(prefix: string, payload: Value): (r: CoordinateOutcome)
    ensures r.NotADict? <==> !payload.Dict?
    ensures payload.Dict? ==>
      var lat, lon := Get(payload, "latitude"), Get(payload, "longitude");
      && (r.Coordinates? <==> ValidateCoordinates(lat, lon).ok)
      && (r.Coordinates? ==>
            && ToFloat(lat) == AsFloat(Finite(r.lat)) && ToFloat(lon) == AsFloat(Finite(r.lon))
            && -90.0 <= r.lat <= 90.0 && -180.0 <= r.lon <= 180.0)
      && (r.CoordinateError? ==> r.message == prefix + ": " + ValidateCoordinates(lat, lon).message.value)
  {
    if !payload.Dict? then NotADict
    else
      var lat, lon := Get(payload, "latitude"), Get(payload, "longitude");
      var verdict := ValidateCoordinates(lat, lon);
      if !verdict.ok then CoordinateError(prefix + ": " + verdict.message.value)
      else Coordinates(ToFloat(lat).value.value, ToFloat(lon).value.value)
  }

  /** `{t.strip() for t in avoid_types if t.strip()}` as a sequence, in input order. */
  function StrippedNonEmpty(ts: seq<string>): (r: seq<string>)
    ensures forall y :: y in r <==> exists t :: t in ts && Strip(t) == y && y != []
  {
    if ts == [] then []
    else
      var rest := StrippedNonEmpty(ts[1..]);
      assert forall t :: t in ts <==> t == ts[0] || t in ts[1..];
      if Strip(ts[0]) != [] then [Strip(ts[0])] + rest else rest
  }

  /**
   * `sorted({t.strip() for t in avoid_types if t.strip()})`: the distinct,
   * stripped, non-empty avoid types in increasing order, none with
   * surrounding white space.
   */
  function StoredAvoidNames(ts: seq<string>): (names: seq<string>)
    ensures StrictlySorted(names)
    ensures forall y :: y in names <==> exists t :: t in ts && Strip(t) == y && y != []
    ensures forall y :: y in names ==> y != [] && Strip(y) == y
  {
    var names := SortedDistinct(StrippedNonEmpty(ts));
    forall y | y in names
      ensures Strip(y) == y
    {
      var t :| t in ts && Strip(t) == y;
      StripIdempotent(t);
    }
    names
  }

  /**
   * The `avoid_types` column: `",".join(sorted({t.strip() for t in avoid_types if t.strip()}))`.
   * It is empty exactly when every avoid type is blank.
   */
  function NormalizeAvoidTypes(ts: seq<string>): (stored: string)
    ensures stored == [] <==> forall t :: t in ts ==> Strip(t) == []
  {
    var names := StoredAvoidNames(ts);
    StoredAvoidNamesEmptyIffBlank(ts);
    assert names != [] ==> names[0] in names;
    Join(",", names)
  }

  /** The stored form depends only on which strings were given, not on their order or repetition. */
  lemma NormalizeIgnoresOrderAndRepeats(ts: seq<string>, us: seq<string>)
    requires forall t :: t in ts <==> t in us
    ensures NormalizeAvoidTypes(ts) == NormalizeAvoidTypes(us)
  {
    var a, b := StoredAvoidNames(ts), StoredAvoidNames(us);
    forall y ensures y in a <==> y in b {
      if y in a {
        var t :| t in ts && Strip(t) == y && y != [];
        assert t in us;
      }
      if y in b {
        var u :| u in us && Strip(u) == y && y != [];
        assert u in ts;
      }
    }
    StrictlySortedUnique(a, b);
  }

  /** No name is stored exactly when every avoid type is blank. */
  lemma StoredAvoidNamesEmptyIffBlank(ts: seq<string>)
    ensures StoredAvoidNames(ts) == [] <==> forall t :: t in ts ==> Strip(t) == []
  {
    var names := StoredAvoidNames(ts);
    if names != [] {
      assert names[0] in names;
    }
    forall t | t in ts && Strip(t) != []
      ensures Strip(t) in names
    {
    }
  }

  /** `all(isinstance(t, str) for t in avoid_types)` on a list. */
  predicate AllText(items: seq<Value>) {
    forall i :: 0 <= i < |items| ==> items[i].Text?
  }

  function Texts(items: seq<Value>): (ts: seq<string>)
    requires AllText(items)
    ensures |ts| == |items|
    ensures forall i :: 0 <= i < |items| ==> Text(ts[i]) == items[i]
  {
    if items == [] then [] else [items[0].text] + Texts(items[1..])
  }

  const AvoidTypesMessage := "avoid_types must be a list of strings"

  /** What `plan_route` keeps from an accepted body. */
  datatype PlanRequest = PlanRequest(
    startLat: real, startLon: real, endLat: real, endLon: real,
    mode: string, avoidTypes: seq<string>, storedAvoidTypes: string)

  /** The handler's verdict: go on with this request, answer 400 with a message, or fail with an uncaught exception. */
  datatype PlanOutcome = Accepted(request: PlanRequest) | Rejected(message: string) | Crashes

  /**
   * Lines 182-211 of `plan_route` up to the database: the defaults for
   * missing fields, then the checks in the order the handler makes them. An
   * accepted request has both points in range and a known travel mode, and
   * stores the normalised avoid types of the strings it was given.
   */
  function ParsePlanRequest(body: Value): (r: PlanOutcome)
    ensures r.Accepted? ==>
      && -90.0 <= r.request.startLat <= 90.0 && -180.0 <= r.request.startLon <= 180.0
      && -90.0 <= r.request.endLat <= 90.0 && -180.0 <= r.request.endLon <= 180.0
      && r.request.mode in TravelModes
      && r.request.storedAvoidTypes == NormalizeAvoidTypes(r.request.avoidTypes)
  {
    var payload := Or(body, EmptyDict);
    if !payload.Dict? then Crashes
    else
      var startData := Or(Get(payload, "start"), EmptyDict);
      var endData := Or(Get(payload, "end"), EmptyDict);
      var mode := ResolveMode(Get(payload, "mode"));
      var avoidTypes := Or(Get(payload, "avoid_types"), List([]));
      if mode.None? then Crashes
      else CheckRequest(ValidateCoordinatePayload("start", startData), ValidateCoordinatePayload("end", endData), mode.value, avoidTypes)
  }

  /**
   * Lines 190-211: the first step that fails decides the answer, in the
   * order start, end, mode, avoid types; a request passing all four is
   * accepted with what they produced.
   */
  function CheckRequest(start: CoordinateOutcome, end: CoordinateOutcome, mode: string, avoidTypes: Value): (r: PlanOutcome)
    ensures r.Accepted? <==>
      start.Coordinates? && end.Coordinates? && mode in TravelModes && avoidTypes.List? && AllText(avoidTypes.items)
    ensures r.Crashes? <==> start.NotADict? || (start.Coordinates? && end.NotADict?)
    ensures start.CoordinateError? ==> r == Rejected(start.message)
    ensures start.Coordinates? && end.CoordinateError? ==> r == Rejected(end.message)
    ensures start.Coordinates? && end.Coordinates? && mode !in TravelModes ==> r == Rejected(ModeMessage(mode))
    ensures r.Accepted? ==>
      var ts := Texts(avoidTypes.items);
      r.request == PlanRequest(start.lat, start.lon, end.lat, end.lon, mode, ts, NormalizeAvoidTypes(ts))
  {
    match start
    case NotADict => Crashes
    case CoordinateError(m) => Rejected(m)
    case Coordinates(startLat, startLon) =>
      match end
      case NotADict => Crashes
      case CoordinateError(m) => Rejected(m)
      case Coordinates(endLat, endLon) =>
        if mode !in TravelModes then Rejected(ModeMessage(mode))
        else if !avoidTypes.List? || !AllText(avoidTypes.items) then Rejected(AvoidTypesMessage)
        else
          var ts := Texts(avoidTypes.items);
          Accepted(PlanRequest(startLat, startLon, endLat, endLon, mode, ts, NormalizeAvoidTypes(ts)))
  }

  /** A missing or empty payload has no coordinates. */
  lemma EmptyPayloadRejected(prefix: string)
    ensures ValidateCoordinatePayload(prefix, EmptyDict) == CoordinateError(prefix + ": " + CoordinateFormatMessage)
  {
    assert Get(EmptyDict, "latitude") == Null && Get(EmptyDict, "longitude") == Null;
  }

  /** A body that is missing or empty gets the start error first: its coordinates are missing. */
  lemma EmptyBodyRejectsStart(body: Value)
    requires !Truthy(body)
    ensures ParsePlanRequest(body) == Rejected("start: " + CoordinateFormatMessage)
  {
    assert Or(body, EmptyDict) == EmptyDict;
    assert Get(EmptyDict, "start") == Null && Get(EmptyDict, "mode") == Null;
    EmptyPayloadRejected("start");
    assert ResolveMode(Null) == Some("car");
  }

  /** A body that is neither a dict nor falsy makes `payload.get` raise. */
  lemma NonDictBodyCrashes(body: Value)
    requires Truthy(body) && !body.Dict?
    ensures ParsePlanRequest(body) == Crashes
  {
  }

  /** A coordinate payload holding two floats. */
  function Point(lat: real, lon: real): Value {
    Dict(map["latitude" := Num(Finite(lat)), "longitude" := Num(Finite(lon))])
  }

  lemma PointInRangeIsValid(prefix: string, lat: real, lon: real)
    requires -90.0 <= lat <= 90.0 && -180.0 <= lon <= 180.0
    ensures ValidateCoordinatePayload(prefix, Point(lat, lon)) == Coordinates(lat, lon)
  {
    assert Get(Point(lat, lon), "latitude") == Num(Finite(lat));
    assert Get(Point(lat, lon), "longitude") == Num(Finite(lon));
  }

  /** The start payload of `body` after the default of line 184 (`body` a dict). */
  function StartOf(body: Value): Value
    requires body.Dict?
  {
    Or(Get(body, "start"), EmptyDict)
  }

  /** The end payload of `body` after the default of line 185 (`body` a dict). */
  function EndOf(body: Value): Value
    requires body.Dict?
  {
    Or(Get(body, "end"), EmptyDict)
  }

  /**
   * A dict body whose start and end payloads hold valid coordinates and
   * whose mode resolves to `m` reaches the mode and avoid-types steps with
   * those coordinates, `m` and `avoid_types` after its default.
   */
  lemma ValidPointsReachModeCheck(body: Value, m: string)
    requires body.Dict?
    requires ValidateCoordinatePayload("start", StartOf(body)).Coordinates?
    requires ValidateCoordinatePayload("end", EndOf(body)).Coordinates?
    requires ResolveMode(Get(body, "mode")) == Some(m)
    ensures ParsePlanRequest(body) == CheckRequest(
      ValidateCoordinatePayload("start", StartOf(body)), ValidateCoordinatePayload("end", EndOf(body)),
      m, Or(Get(body, "avoid_types"), List([])))
  {
    EmptyPayloadRejected("start");
    assert Or(body, EmptyDict) == body;
  }

  /**
   * For any dict body with valid points, the mode is checked before the
   * avoid types: a mode outside `TRAVEL_MODES` is reported, whatever
   * `avoid_types` holds.
   */
  lemma UnknownModeRejected(body: Value, m: string)
    requires body.Dict?
    requires ValidateCoordinatePayload("start", StartOf(body)).Coordinates?
    requires ValidateCoordinatePayload("end", EndOf(body)).Coordinates?
    requires ResolveMode(Get(body, "mode")) == Some(m)
    requires m !in TravelModes
    ensures ParsePlanRequest(body) == Rejected(ModeMessage(m))
  {
    ValidPointsReachModeCheck(body, m);
  }

  /**
   * For any dict body with valid points and a known mode, the request is
   * accepted exactly when `avoid_types` is missing, falsy, or a list of
   * strings, and is otherwise rejected with the avoid-types message; an
   * accepted request keeps both points, the mode and those strings.
   */
  lemma KnownModeAcceptance(body: Value, m: string)
    requires body.Dict?
    requires ValidateCoordinatePayload("start", StartOf(body)).Coordinates?
    requires ValidateCoordinatePayload("end", EndOf(body)).Coordinates?
    requires ResolveMode(Get(body, "mode")) == Some(m)
    requires m in TravelModes
    ensures var avoid := Get(body, "avoid_types");
      ParsePlanRequest(body).Accepted? <==> !Truthy(avoid) || (avoid.List? && AllText(avoid.items))
    ensures !ParsePlanRequest(body).Accepted? ==> ParsePlanRequest(body) == Rejected(AvoidTypesMessage)
    ensures ParsePlanRequest(body).Accepted? ==>
      var r, start, end := ParsePlanRequest(body).request,
        ValidateCoordinatePayload("start", StartOf(body)), ValidateCoordinatePayload("end", EndOf(body));
      && r.startLat == start.lat && r.startLon == start.lon
      && r.endLat == end.lat && r.endLon == end.lon
      && r.mode == m
      && |r.avoidTypes| == |Or(Get(body, "avoid_types"), List([])).items|
      && forall i :: 0 <= i < |r.avoidTypes| ==> Text(r.avoidTypes[i]) == Or(Get(body, "avoid_types"), List([])).items[i]
  {
    ValidPointsReachModeCheck(body, m);
    if !Truthy(Get(body, "avoid_types")) {
      assert AllText([]);
    }
  }
}
