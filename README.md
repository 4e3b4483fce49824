# TravelSafe route safety core in Dafny

TravelSafe is a Flask backend where users report road incidents (accidents,
construction, traffic jams, closures, hazards, police, other) and ask for
routes scored by how close those incidents are. This project models the part
of the backend that decides things:

- the request validators of `backend/app/validators.py`: coordinates, event
  type, severity and status;
- the route scoring of `backend/app/routes/routing_routes.py`:
  - the local planar projection;
  - the point-to-segment and point-to-path distances;
  - the impact score of one incident;
  - `_score_route` itself: active incidents, nearest path, report cut-off,
    the 0–100 score and the impacts sorted by distance;
- the checks `plan_route` makes on its JSON body before it touches the
  database. These are the coordinate payloads, the travel mode, the
  `avoid_types` type check and the normalised `avoid_types` string that is
  stored.

Modules:

| file | module | what |
|---|---|---|
| `wrappers.dfy` | `Wrappers` | `Option` |
| `pyvalue.dfy` | `PyValue` | decoded JSON values (integers and floats kept apart), Python truthiness, `dict.get`, `float()` and `int()` of a value with their exceptions |
| `pynum.dfy` | `PyNum` | Python floats (finite, ±inf, NaN), `float(str)`, `int(str)`, truncation, `round` (half to even), decimal printing |
| `pystr.dfy` | `PyStr` | `str.strip`, `str.lower`, string order, `sorted(set(...))` of strings, `str.join` |
| `validators.dfy` | `Validators` | the four validators |
| `geometry.dfy` | `RouteGeometry` | projection, segment distance, path distance (`MinDistanceToPath` is imperative, like the source's loop) |
| `impact.dfy` | `ImpactScore` | `_calculate_impact_score` and its monotonicity and bounds |
| `route_score.dfy` | `RouteScore` | `_score_route` as methods with its loops, proved against the functions `RecordedImpacts`, `FinalScore` and `SortByDistance` |
| `plan_route.dfy` | `PlanRoute` | `_validate_coordinate_payload` and the checks of `plan_route`, as `ParsePlanRequest` |

`cos` and `hypot` are not computed. They are passed as a `Trig` value of two
functions. The lemmas that compare distances assume only `IsNorm(hypot)`:
`hypot` is non-negative and does not decrease as the squared length of its
argument grows.

## Model

| member | source | states |
|---|---|---|
| Validators.ValidateCoordinatesAsWritten | backend/app/validators.py:1-14 | as written: raises exactly when converting the latitude, or (once it converts) the longitude, overflows; otherwise it accepts exactly when no message is returned, and only values that both convert |
| Validators.CoordinatesAsWrittenAcceptNaN | backend/app/validators.py:3-12 | as written, `("nan", 0)` and `(NaN, NaN)` pass both range checks and return `(True, None)` |
| Validators.CoordinatesAsWrittenRaiseOnHugeInteger | backend/app/validators.py:3-13 | as written, an integer too large for a double, as latitude or as longitude, raises OverflowError, which is not handled |
| Validators.ValidateCoordinates | backend/app/validators.py:1-14 | accepted exactly when both values convert with `float()` and the latitude lies in [-90, 90] and the longitude in [-180, 180], bounds included; a conversion failure gives the format message, otherwise the latitude is checked before the longitude; NaN is out of range and an overflowing integer is a format error (see Findings) |
| Validators.CoordinatesCorrectionOnlyAffectsNaNAndOverflow | backend/app/validators.py:1-14 | the corrected validator and the one as written agree on every input where neither value converts to NaN or overflows |
| Validators.CoordinatesCorrectedRejectNaN | backend/app/validators.py:6-10 | the corrected validator rejects a NaN latitude with the latitude message and a NaN longitude with the longitude message |
| Validators.CoordinatesCorrectedRejectHugeInteger | backend/app/validators.py:13-14 | the corrected validator answers an integer too large for a double with the format message |
| Validators.ValidateEventType | backend/app/validators.py:16-30 | accepted exactly when the value is one of the seven event type strings, spelt exactly; the rejection message lists them joined by ", " |
| Validators.ValidateSeverity | backend/app/validators.py:32-39 | accepted exactly when `int(severity)` succeeds with a value from 1 to 5, returned as the third element; a value out of range gives the range message, a failed conversion the format message |
| Validators.ValidateSeverityAsWritten | backend/app/validators.py:32-39 | as written: raises exactly for an infinite float; when it accepts, the value is an integer from 1 to 5 |
| Validators.SeverityAsWrittenRaisesOnInfinity | backend/app/validators.py:33-39 | as written, an infinite severity raises OverflowError, which the handler does not catch |
| Validators.SeverityCorrectionOnlyAffectsOverflow | backend/app/validators.py:32-39 | for every input whose conversion does not overflow, the validator as written returns the corrected verdict |
| Validators.SeverityFromInteger | backend/app/validators.py:34-37 | a JSON integer `n` is accepted exactly when 1 <= n <= 5, with value `n` |
| Validators.SeverityFromString | backend/app/validators.py:34-37 | the decimal string of `n` is accepted exactly when 1 <= n <= 5, with value `n` |
| Validators.SeverityFromFloat | backend/app/validators.py:34-37 | a float is truncated toward zero: accepted exactly when 1 <= x < 6, with value floor(x) |
| Validators.ValidateStatus | backend/app/validators.py:41-47 | accepted exactly when the value is `active`, `resolved` or `expired`; otherwise the message lists them |
| PyValue.Truthy | backend/app/routes/routing_routes.py:182-187 | a value is falsy exactly when it is `None`, `False`, `0`, `0.0`, the empty string, the empty list or the empty dict |
| PyValue.Get | backend/app/routes/routing_routes.py:161-162 | `dict.get` returns the entry of a present key and `None` for a missing key |
| PyValue.ToFloat | backend/app/validators.py:3-4 | `float()` overflows exactly for an integer too large for a double and otherwise gives that integer; it fails exactly for `None`, a list, a dict or a string it cannot read, and a readable string gives what `float(str)` reads |
| PyValue.ToInt | backend/app/validators.py:34 | `int()` overflows exactly for an infinite float; an integer is kept, a finite float is truncated toward zero; it fails exactly for NaN, `None`, a list, a dict or a string that is not a signed digit run |
| PyNum.ParseFloatAgreesWithParseInt | backend/app/validators.py:3-34 | every string `int()` accepts, `float()` accepts with the same value |
| PyNum.ParseFloatOfIntToString | backend/app/validators.py:3-4 | `float()` of the decimal string of an integer is that integer |
| PyNum.ParseIntOfIntToString | backend/app/validators.py:34 | `int()` of the decimal string of an integer is that integer |
| PyNum.ParseFloatOfNan | backend/app/validators.py:3-4 | `float("nan")` is NaN |
| PyNum.Trunc | backend/app/validators.py:34 | `int()` of a float rounds toward zero: the result is within 1 of x, on the side of 0 |
| PyNum.RoundHalfEven | backend/app/routes/routing_routes.py:106 | `round()` is within 1/2 of x, and a tie goes to the even integer |
| PyNum.RoundMonotone | backend/app/routes/routing_routes.py:106 | `round()` never decreases as its argument grows |
| PyStr.StripIsTrimmedSlice | backend/app/routes/routing_routes.py:211 | `t.strip()` is a slice of `t` with only whitespace outside it, and does not start or end with whitespace |
| PyStr.StripEmptyIffAllSpace | backend/app/routes/routing_routes.py:211 | `t.strip()` is empty exactly when `t` is all whitespace |
| PyStr.StripIdempotent | backend/app/routes/routing_routes.py:211 | stripping twice is stripping once |
| PyStr.Lower | backend/app/routes/routing_routes.py:125 | `lower()` keeps the length and lowers each character |
| PyStr.LowerIdempotent | backend/app/routes/routing_routes.py:144 | lowering twice is lowering once |
| PyStr.LexLessTransitive | backend/app/routes/routing_routes.py:211 | the string order `sorted` uses is transitive |
| PyStr.LexLessTotal | backend/app/routes/routing_routes.py:211 | any two different strings are ordered one way or the other |
| PyStr.SortedDistinct | backend/app/routes/routing_routes.py:211 | `sorted(set(xs))` is strictly increasing and holds exactly the elements of `xs` |
| PyStr.JoinAppend | backend/app/routes/routing_routes.py:211 | joining one more item appends the separator and that item, so the items appear in order with `sep` between neighbours |
| PyStr.StrictlySortedUnique | backend/app/routes/routing_routes.py:211 | two strictly increasing lists with the same elements are equal |
| RouteGeometry.ProjectionKilometres | backend/app/routes/routing_routes.py:21-27 | on the projected plane a latitude difference is 111 km per degree, and a longitude difference 111 km per degree times the cosine of the reference latitude |
| RouteGeometry.ClampUnit | backend/app/routes/routing_routes.py:43 | `max(0.0, min(1.0, t))` lies in [0, 1], equals `t` inside it, and 0 or 1 below or above it |
| RouteGeometry.NearestOnSegment | backend/app/routes/routing_routes.py:38-44 | for a degenerate segment the nearest point is its start; otherwise it is the point at the clamped projection parameter |
| RouteGeometry.NearestIsNearest | backend/app/routes/routing_routes.py:38-44 | no point of the segment is closer (in squared distance) to the incident than the chosen point |
| RouteGeometry.SegmentDistanceIsMinimal | backend/app/routes/routing_routes.py:38-45 | the distance from a projected point to a projected segment is non-negative and at most the distance to any point of the segment |
| RouteGeometry.PointToSegmentDistanceIsMinimal | backend/app/routes/routing_routes.py:30-45 | from a position to the segment between two positions, projected around their mean latitude: non-negative and at most the distance to any point of the segment |
| RouteGeometry.SegmentDistanceAtMostStart | backend/app/routes/routing_routes.py:30-45 | the segment distance is at most the distance to the segment's start |
| RouteGeometry.SegmentDistanceAtMostEnd | backend/app/routes/routing_routes.py:30-45 | the segment distance is at most the distance to the segment's end |
| RouteGeometry.SegmentDistances | backend/app/routes/routing_routes.py:56-61 | one entry per consecutive pair of points: the segment distance, or none when either point has fewer than two coordinates |
| RouteGeometry.MinOfIsMinimum | backend/app/routes/routing_routes.py:55-64 | the running minimum is none exactly when every entry is none, is one of the entries, and is at most each present entry |
| RouteGeometry.PathMinDistanceIsMinimum | backend/app/routes/routing_routes.py:48-64 | the path distance is none exactly when the path has no usable segment; otherwise it is one of the segment distances and at most every one of them |
| RouteGeometry.MinDistanceToPath | backend/app/routes/routing_routes.py:48-64 | the loop computes the minimum over the path's segments (equal to `PathMinDistance`) |
| ImpactScore.SeverityMultiplier | backend/app/routes/routing_routes.py:80 | severities 1 to 5 give a multiplier from 0.6 to 1.4; it is non-negative exactly from severity -2 up |
| ImpactScore.SeverityMultiplierIncreasing | backend/app/routes/routing_routes.py:80 | a higher severity gives a strictly higher multiplier |
| ImpactScore.BaseImpact | backend/app/routes/routing_routes.py:82-97 | in [0, 20]; 20 exactly within 50 m; from 5 to under 15 up to 200 m; from 1 to under 5 up to 500 m; under 1 beyond; 0 exactly from 1 km |
| ImpactScore.BaseImpactNonIncreasing | backend/app/routes/routing_routes.py:82-97 | the base impact never grows with distance |
| ImpactScore.CalculateImpactScore | backend/app/routes/routing_routes.py:67-106 | the impact score is a non-negative integer |
| ImpactScore.ImpactZeroBeyondReport | backend/app/routes/routing_routes.py:94-106 | from 1 km on, the impact score is 0 |
| ImpactScore.ImpactZeroForNegativeMultiplier | backend/app/routes/routing_routes.py:79-106 | below severity -2 the multiplier is negative and `max(0, ...)` gives 0 |
| ImpactScore.ImpactNonIncreasingInDistance | backend/app/routes/routing_routes.py:79-106 | a farther incident never scores higher, for any severity and avoided flag |
| ImpactScore.ImpactNonDecreasingInSeverity | backend/app/routes/routing_routes.py:79-106 | a more severe incident never scores lower |
| ImpactScore.AvoidedNeverLowers | backend/app/routes/routing_routes.py:102-106 | the 1.5 factor for an avoided type never lowers the score |
| ImpactScore.ImpactBounded | backend/app/routes/routing_routes.py:79-106 | for severity 1 to 5 the score is at most 28, or 42 for an avoided type |
| ImpactScore.CriticalZoneScores | backend/app/routes/routing_routes.py:83-106 | within 50 m a severity 1 to 5 incident scores 12 to 28, or 18 to 42 when avoided; this follows the code, where the docstring at line 72 says 15 to 30 |
| RouteScore.ActiveEvents | backend/app/routes/routing_routes.py:126 | exactly the incidents whose status is `active`, each as many times as it occurs in the input and no other |
| RouteScore.ActiveEventsOfAppend | backend/app/routes/routing_routes.py:126 | filtering keeps the order: the filter of a concatenation is the concatenation of the filters |
| RouteScore.ActiveEventsOfOne | backend/app/routes/routing_routes.py:126 | one incident is kept exactly when its status is `active` |
| RouteScore.AvoidedIffTypeMatches | backend/app/routes/routing_routes.py:125-144 | an incident is avoided exactly when its lowered type equals some lowered avoid type |
| RouteScore.PathDistances | backend/app/routes/routing_routes.py:134-135 | one path distance per path, in order |
| RouteScore.EventDistanceIsMinimum | backend/app/routes/routing_routes.py:131-138 | the incident's distance is none exactly when no path has a usable segment; otherwise it is the distance to some segment and at most the distance to every segment of every path |
| RouteScore.NearestPathDistance | backend/app/routes/routing_routes.py:131-138 | the inner loop computes the least distance over the paths (equal to `EventDistance`) |
| RouteScore.FinalScore | backend/app/routes/routing_routes.py:152 | the score lies in [0, 100] and is 100 less the total, clamped |
| RouteScore.FinalScoreAntitone | backend/app/routes/routing_routes.py:152 | a larger total never gives a higher score |
| RouteScore.InsertByDistance | backend/app/routes/routing_routes.py:155 | inserting into a list sorted by distance keeps it sorted and adds exactly that impact |
| RouteScore.SortByDistance | backend/app/routes/routing_routes.py:155 | the impacts sorted by distance are sorted and a permutation of the input |
| RouteScore.SortIsStable | backend/app/routes/routing_routes.py:155 | impacts at equal distance keep their order, as in Python's stable sort |
| RouteScore.RecordedImpacts | backend/app/routes/routing_routes.py:130-149 | no more impacts than incidents; every recorded impact belongs to an incident of the input, lies within 1 km and has a positive score |
| RouteScore.RecordedImpactsOfAppend | backend/app/routes/routing_routes.py:130-149 | the incidents are visited in order: recording over a concatenation is recording over each part in turn |
| RouteScore.RecordedImpactsOfOne | backend/app/routes/routing_routes.py:141-148 | one incident records at most one impact, and it is that incident's own |
| RouteScore.RecordedEventsWithinEvents | backend/app/routes/routing_routes.py:130-149 | no incident is recorded more often than it occurs among the active incidents |
| RouteScore.TotalOfAppend | backend/app/routes/routing_routes.py:149 | recording one more impact adds its score to the total |
| RouteScore.TotalOfRecordedAppend | backend/app/routes/routing_routes.py:130-149 | one more incident adds its impact score to the total when it records one, and nothing otherwise |
| RouteScore.RecordedImpactsExactly | backend/app/routes/routing_routes.py:130-149 | an impact is recorded exactly for each incident within 1 km whose score is positive, with that score and distance |
| RouteScore.TotalPositiveUnlessEmpty | backend/app/routes/routing_routes.py:147-149 | the total of recorded impacts is non-negative, and 0 exactly when none was recorded |
| RouteScore.ScoreFullIffNoImpacts | backend/app/routes/routing_routes.py:121-152 | the score is 100 exactly when no impact is recorded |
| RouteScore.RouteScoreOf | backend/app/routes/routing_routes.py:109-152 | the route score lies in [0, 100] and is 100 exactly when no active incident records an impact |
| RouteScore.AddingEventNeverRaisesScore | backend/app/routes/routing_routes.py:120-152 | one more incident never raises the score |
| RouteScore.AvoidingMoreNeverRaisesScore | backend/app/routes/routing_routes.py:125-152 | a larger set of avoided types never raises the score |
| RouteScore.AddingPathNeverRaisesScore | backend/app/routes/routing_routes.py:131-152 | one more alternative path never raises the score |
| RouteScore.ScoreRouteResult | backend/app/routes/routing_routes.py:109-157 | the returned impacts are active incidents within 1 km with positive scores; the score is 100 exactly when there are none |
| RouteScore.RecordImpacts | backend/app/routes/routing_routes.py:130-149 | the loop over the incidents records exactly `RecordedImpacts` and keeps their total |
| RouteScore.ScoreRoute | backend/app/routes/routing_routes.py:109-157 | the loop returns the sorted recorded impacts and the clamped score, so everything proved about those functions holds for its result |
| PlanRoute.SortedTravelModes | backend/app/routes/routing_routes.py:12 | sorted, the travel modes are bicycle, car, pedestrian |
| PlanRoute.ResolveMode | backend/app/routes/routing_routes.py:186 | a missing or falsy mode is `car`; a non-empty string is lowered; any other truthy value has no `.lower()` and fails |
| PlanRoute.ModeMessageText | backend/app/routes/routing_routes.py:198 | the rejection message names the mode and lists `bicycle, car, pedestrian` |
| PlanRoute.ValidateCoordinatePayload | backend/app/routes/routing_routes.py:160-166 | a non-dict payload fails on `.get`; otherwise the result is coordinates exactly when the validator accepts, those coordinates are the floats of the payload and lie in range, and an error carries the prefixed validator message |
| PlanRoute.PointInRangeIsValid | backend/app/routes/routing_routes.py:160-166 | a payload with numbers in range yields those numbers |
| PlanRoute.StrippedNonEmpty | backend/app/routes/routing_routes.py:211 | the non-empty stripped names are exactly those of the input |
| PlanRoute.StoredAvoidNames | backend/app/routes/routing_routes.py:211 | the stored names are strictly sorted and are exactly the non-empty stripped input names, each already stripped |
| PlanRoute.NormalizeAvoidTypes | backend/app/routes/routing_routes.py:211 | the stored string is empty exactly when every given name is blank |
| PlanRoute.StoredAvoidNamesEmptyIffBlank | backend/app/routes/routing_routes.py:211 | no name is stored exactly when every given name strips to nothing |
| PlanRoute.NormalizeIgnoresOrderAndRepeats | backend/app/routes/routing_routes.py:211 | lists with the same elements store the same string, whatever their order and repeats |
| PlanRoute.Texts | backend/app/routes/routing_routes.py:200-201 | a list of JSON strings becomes the same strings, in order |
| PlanRoute.ParsePlanRequest | backend/app/routes/routing_routes.py:182-211 | an accepted body has both points in range and a known travel mode, and stores the normalised avoid types of the strings it gave |
| PlanRoute.CheckRequest | backend/app/routes/routing_routes.py:190-211 | accepted exactly when both points are valid, the mode is known and `avoid_types` is a list of strings; a non-dict payload fails; otherwise the first failing check, in the order start, end, mode, avoid types, gives the answer; an accepted request holds the two points, the mode, the strings and their normalised form |
| PlanRoute.EmptyPayloadRejected | backend/app/routes/routing_routes.py:160-165 | a missing or empty coordinate payload is rejected with the prefixed format message |
| PlanRoute.EmptyBodyRejectsStart | backend/app/routes/routing_routes.py:182-192 | a missing or empty body is rejected with the start coordinate error |
| PlanRoute.NonDictBodyCrashes | backend/app/routes/routing_routes.py:182-184 | a truthy body that is not an object fails on `.get` |
| PlanRoute.ValidPointsReachModeCheck | backend/app/routes/routing_routes.py:182-197 | for every dict body whose start and end payloads are valid and whose mode resolves, the handler reaches the mode check with those points, that mode and `avoid_types` after its default |
| PlanRoute.UnknownModeRejected | backend/app/routes/routing_routes.py:182-198 | for every such body, a mode outside the travel modes is rejected with its message, whatever `avoid_types` holds |
| PlanRoute.KnownModeAcceptance | backend/app/routes/routing_routes.py:182-201 | for every such body with a known mode: accepted exactly when `avoid_types` is falsy or a list of strings, otherwise rejected with the avoid-types message; an accepted request keeps both points, the mode and as many names as were given |

## Left out

- Flask, the `token_required` authentication, the database session and the ORM models are not modelled. `Event.query.filter_by(status='active')` becomes a filter over a list of incidents passed in.
- Everything after the checks of `plan_route` is not modelled. That covers creating the route request, scoring the polyline, storing routes and event links, and the JSON response, including its rounding of distances to 3 places. The handler's conversion of the `polyline` JSON into paths is not modelled either: `_score_route` takes its paths as numbers already.
- `routing_options` reads the database only and is not modelled; its `sorted(TRAVEL_MODES)` is `PlanRoute.SortedTravelModes`.
- `math.cos`, `math.radians` and `math.hypot` are parameters (`Trig`). The distance lemmas assume only that `hypot` is non-negative and monotone in the squared length.
- Floats are real numbers, so rounding error in the projection, the division and the impact arithmetic is not modelled. NaN and infinities are modelled where values enter, in `float()` and `int()` of request values. Path coordinates are finite reals.
- Path vertices that are not lists of numbers are not modelled: a JSON object vertex raises KeyError at `start[0]`, other non-numeric values raise TypeError, and booleans are read as 1 and 0. The model's paths hold only numbers.
- `float()` of a string accepts optional surrounding whitespace and a sign, then `inf`, `infinity` or `nan` in any case, or digits with an optional fraction and an optional `e`/`E` exponent. `int()` of a string accepts only optional whitespace, a sign and digits. Underscore digit separators and non-ASCII digits are not modelled for either.
- PyValue.ToFloat: the value is exact, not rounded to the nearest double. `float()` of a decimal string or of an integer beyond 2^53 is rounded in Python, so the model can disagree at the bounds: `"90.00000000000000001"` rounds to 90.0 and is accepted by the code, but the model reads it as more than 90 and rejects it. A decimal string too large for a double becomes infinity in Python; the model keeps its exact value. Only integers, which Python does not round to infinity, overflow in the model.
- PyValue.ToInt: the limit on the length of digit strings that newer Python releases apply (4300 digits by default, from 3.11 and the 3.7.14–3.10.7 security releases) is not modelled. Above it `int()` raises ValueError, so `validate_severity("1" + "0" * 4300)` returns the format message, while the model converts the string and returns the range message.
- PyStr.Lower: lowers ASCII letters only, because Python's full Unicode case mapping is not modelled.
- `impacts.sort(...)` sorts a list in place. Here it is the stable functional sort `SortByDistance`, applied to the recorded list.
- PlanRoute.ValidateCoordinatePayload, PlanRoute.ParsePlanRequest, PlanRoute.ValidPointsReachModeCheck, PlanRoute.UnknownModeRejected, PlanRoute.KnownModeAcceptance: use the corrected coordinate validator (`CheckRequest` receives its outcomes). A NaN coordinate is rejected where the code as written accepts it, and a huge integer coordinate gets the format message where the code as written raises (see Findings).

## Findings

| source | as written | input that shows it | evidently intended | confidence | as-written member | corrected member |
|---|---|---|---|---|---|---|
| backend/app/validators.py:6-12 | `lat < -90 or lat > 90` is false for NaN, so NaN passes both range checks | `validate_coordinates("nan", 0)` returns `(True, None)` | NaN is not a latitude or longitude and is rejected with the range message | not executed | Validators.CoordinatesAsWrittenAcceptNaN | Validators.CoordinatesCorrectedRejectNaN |
| backend/app/validators.py:3-13 | `float(latitude)` raises OverflowError for an integer too large for a double, and only ValueError and TypeError are caught | `validate_coordinates(10**400, 0)`, for example from a JSON body whose latitude is a 401-digit integer, raises | an integer too large for a double returns `(False, "Invalid coordinate format")` | not executed | Validators.CoordinatesAsWrittenRaiseOnHugeInteger | Validators.CoordinatesCorrectedRejectHugeInteger |
| backend/app/validators.py:33-39 | `int(severity)` raises OverflowError for an infinite float, and only ValueError and TypeError are caught | `validate_severity(float('inf'))`, for example from a JSON body holding `Infinity`, raises | every non-numeric severity returns `(False, "Severity must be a number between 1 and 5", None)` | not executed | Validators.SeverityAsWrittenRaisesOnInfinity | Validators.ValidateSeverity |
