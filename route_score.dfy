/**
 * `_score_route`: the safety score of a route. Every active incident within
 * the reporting distance of some path takes its impact score off 100; the
 * score is clamped to 0..100 and the impacts come back sorted by distance.
 * The incidents the database would return are a parameter.
 */
module RouteScore {
  import opened Wrappers
  import opened PyStr
  import opened PyNum
  import opened RouteGeometry
  import opened ImpactScore

  /** The columns of an `Event` row the scorer reads. */
  datatype Event = Event(id: int, eventType: string, severity: int, latitude: real, longitude: real, status: string)

  /** An entry of the impacts list: `(event, impact_score, distance_km)`. */
  datatype Impact = Impact(event: Event, score: int, distanceKm: real)

  /**
   * `Event.query.filter_by(status='active').all()` over the given events:
   * each active event as often as it occurs, and no other.
   */
  function ActiveEvents(events: seq<Event>): (r: seq<Event>)
    ensures forall e :: e in r <==> e in events && e.status == "active"
    ensures forall e :: multiset(r)[e] == if e.status == "active" then multiset(events)[e] else 0
  {
    if events == [] then []
    else
      var init := ActiveEvents(events[..|events| - 1]);
      var last := events[|events| - 1];
      assert events == events[..|events| - 1] + [last];
      if last.status == "active" then init + [last] else init
  }

  /** The filter keeps the order of the events: filtering a concatenation concatenates the filtered parts. */
  lemma {:induction false} ActiveEventsOfAppend(a: seq<Event>, b: seq<Event>)
    ensures ActiveEvents(a + b) == ActiveEvents(a) + ActiveEvents(b)
  {
    if b != [] {
      var init, last := b[..|b| - 1], b[|b| - 1];
      assert (a + b)[..|a + b| - 1] == a + init;
      ActiveEventsOfAppend(a, init);
    } else {
      assert a + b == a;
    }
  }

  /** A single event is kept exactly when it is active. */
  lemma ActiveEventsOfOne(e: Event)
    ensures ActiveEvents([e]) == if e.status == "active" then [e] else []
  {
  }

  /** `{t.lower() for t in avoid_types}`. */
  function LowerAll(avoidTypes: seq<string>): set<string> {
    set t | t in avoidTypes :: Lower(t)
  }

  /** `event.type.lower() in avoid_types_lower`. */
  predicate IsAvoided(e: Event, avoidLower: set<string>) {
    Lower(e.eventType) in avoidLower
  }

  /** An incident is avoided exactly when its type equals one of the avoid types, ignoring case. */
  lemma AvoidedIffTypeMatches(e: Event, avoidTypes: seq<string>)
    ensures IsAvoided(e, LowerAll(avoidTypes)) <==> exists t :: t in avoidTypes && Lower(t) == Lower(e.eventType)
  {
  }

  /** The distance from (`lat`, `lon`) to each path, as `_min_distance_to_path_km` gives it. */
  function PathDistances(g: Trig, paths: seq<seq<seq<real>>>, lat: real, lon: real): (ds: seq<Option<real>>)
    ensures |ds| == |paths|
    ensures forall k :: 0 <= k < |paths| ==> ds[k] == PathMinDistance(g, paths[k], lat, lon)
  {
    seq(|paths|, k requires 0 <= k < |paths| => PathMinDistance(g, paths[k], lat, lon))
  }

  /** The incident's distance to the route: the least distance to any of its paths. */
  function EventDistance(g: Trig, paths: seq<seq<seq<real>>>, e: Event): Option<real> {
    MinOf(PathDistances(g, paths, e.latitude, e.longitude))
  }

  /**
   * The distance of an incident to the route is `None` exactly when no path
   * has a usable segment, and otherwise the distance to some usable segment
   * that no usable segment of any path beats.
   */
  lemma EventDistanceIsMinimum(g: Trig, paths: seq<seq<seq<real>>>, e: Event)
    ensures EventDistance(g, paths, e).None? <==> forall k, i :: 0 <= k < |paths| ==> !IsSegment(paths[k], i)
    ensures EventDistance(g, paths, e).Some? ==>
      exists k, i :: 0 <= k < |paths| && IsSegment(paths[k], i)
        && EventDistance(g, paths, e).value == SegmentDistanceAt(g, paths[k], e.latitude, e.longitude, i)
    ensures forall k, i :: 0 <= k < |paths| && IsSegment(paths[k], i) ==>
      EventDistance(g, paths, e).Some? && EventDistance(g, paths, e).value <= SegmentDistanceAt(g, paths[k], e.latitude, e.longitude, i)
  {
    var lat, lon := e.latitude, e.longitude;
    var ds := PathDistances(g, paths, lat, lon);
    MinOfIsMinimum(ds);
    forall k | 0 <= k < |paths|
      ensures ds[k].None? <==> forall i :: !IsSegment(paths[k], i)
      ensures forall i :: IsSegment(paths[k], i) ==> ds[k].Some? && ds[k].value <= SegmentDistanceAt(g, paths[k], lat, lon, i)
    {
      PathMinDistanceIsMinimum(g, paths[k], lat, lon);
    }
    forall k, i | 0 <= k < |paths| && IsSegment(paths[k], i)
      ensures MinOf(ds).Some? && MinOf(ds).value <= SegmentDistanceAt(g, paths[k], lat, lon, i)
    {
      assert ds[k].Some?;
    }
    if MinOf(ds).Some? {
      var k :| 0 <= k < |ds| && ds[k] == MinOf(ds);
      PathMinDistanceIsMinimum(g, paths[k], lat, lon);
      var i :| IsSegment(paths[k], i) && ds[k].value == SegmentDistanceAt(g, paths[k], lat, lon, i);
    } else {
      forall k, i | 0 <= k < |paths|
        ensures !IsSegment(paths[k], i)
      {
        assert ds[k].None?;
      }
    }
  }

  /** What the loop body does with an incident at `minDistance`: skip it, or record its impact. */
  function ImpactAt(minDistance: Option<real>, e: Event, avoidLower: set<string>): Option<Impact> {
    if minDistance.None? || minDistance.value > MaxReportDistanceKm then None
    else
      var score := CalculateImpactScore(minDistance.value, e.severity, IsAvoided(e, avoidLower));
      if score > 0 then Some(Impact(e, score, minDistance.value)) else None
  }

  function EventImpact(g: Trig, paths: seq<seq<seq<real>>>, avoidLower: set<string>, e: Event): Option<Impact> {
    ImpactAt(EventDistance(g, paths, e), e, avoidLower)
  }

  /** The impacts in the order the loop appends them, before sorting. */
  function RecordedImpacts(g: Trig, paths: seq<seq<seq<real>>>, avoidLower: set<string>, events: seq<Event>): (r: seq<Impact>)
    ensures |r| <= |events|
    ensures forall i :: 0 <= i < |r| ==>
      r[i].event in events && 0 < r[i].score && r[i].distanceKm <= MaxReportDistanceKm
  {
    if events == [] then []
    else
      var init := RecordedImpacts(g, paths, avoidLower, events[..|events| - 1]);
      assert forall e :: e in events[..|events| - 1] ==> e in events;
      match EventImpact(g, paths, avoidLower, events[|events| - 1])
      case None => init
      case Some(imp) => init + [imp]
  }

  /** The incidents of a list of impacts, in order. */
  function EventsOf(impacts: seq<Impact>): (es: seq<Event>)
    ensures |es| == |impacts|
    ensures forall i :: 0 <= i < |impacts| ==> es[i] == impacts[i].event
  {
    seq(|impacts|, i requires 0 <= i < |impacts| => impacts[i].event)
  }

  /** Recording over a concatenation records over each part in turn: the loop visits the incidents in order. */
  lemma {:induction false} RecordedImpactsOfAppend(g: Trig, paths: seq<seq<seq<real>>>, avoidLower: set<string>, a: seq<Event>, b: seq<Event>)
    ensures RecordedImpacts(g, paths, avoidLower, a + b)
         == RecordedImpacts(g, paths, avoidLower, a) + RecordedImpacts(g, paths, avoidLower, b)
  {
    if b == [] {
      assert a + b == a;
    } else {
      var init, last := b[..|b| - 1], b[|b| - 1];
      assert (a + b)[..|a + b| - 1] == a + init;
      assert (a + b)[|a + b| - 1] == last;
      RecordedImpactsOfAppend(g, paths, avoidLower, a, init);
    }
  }

  /** One incident records at most one impact, and that impact is its own. */
  lemma RecordedImpactsOfOne(g: Trig, paths: seq<seq<seq<real>>>, avoidLower: set<string>, e: Event)
    ensures RecordedImpacts(g, paths, avoidLower, [e])
         == match EventImpact(g, paths, avoidLower, e) case None => [] case Some(imp) => [imp]
    ensures forall imp :: imp in RecordedImpacts(g, paths, avoidLower, [e]) ==> imp.event == e
  {
    assert [e][..0] == [];
  }

  /** No incident is recorded more often than it occurs among the incidents given. */
  lemma {:induction false} RecordedEventsWithinEvents(g: Trig, paths: seq<seq<seq<real>>>, avoidLower: set<string>, events: seq<Event>)
    ensures multiset(EventsOf(RecordedImpacts(g, paths, avoidLower, events))) <= multiset(events)
  {
    if events != [] {
      var init, last := events[..|events| - 1], events[|events| - 1];
      assert events == init + [last];
      RecordedEventsWithinEvents(g, paths, avoidLower, init);
      var r0 := RecordedImpacts(g, paths, avoidLower, init);
      match EventImpact(g, paths, avoidLower, last)
      case None =>
      case Some(imp) =>
        assert EventsOf(r0 + [imp]) == EventsOf(r0) + [last];
    }
  }

  /** `total_impact`: the sum of the recorded impact scores. */
  function TotalImpact(impacts: seq<Impact>): int {
    if impacts == [] then 0 else TotalImpact(impacts[..|impacts| - 1]) + impacts[|impacts| - 1].score
  }

  /** `max(0, min(100, int(round(100.0 - total_impact))))`: 100 less the total, clamped to 0..100. */
  function FinalScore(totalImpact: int): (score: int)
    ensures 0 <= score <= 100
    ensures score == Max(0, Min(100, 100 - totalImpact))
  {
    RoundOfInteger(100 - totalImpact);
    Max(0, Min(100, RoundHalfEven(100.0 - totalImpact as real)))
  }

  predicate SortedByDistance(s: seq<Impact>) {
    forall i, j :: 0 <= i < j < |s| ==> s[i].distanceKm <= s[j].distanceKm
  }

  /** `x` placed in front of the first entry that is not nearer than it. */
  function InsertByDistance(x: Impact, s: seq<Impact>): (r: seq<Impact>)
    requires SortedByDistance(s)
    ensures SortedByDistance(r)
    ensures multiset(r) == multiset(s) + multiset{x}
  {
    if s == [] || x.distanceKm <= s[0].distanceKm then
      assert forall i :: 0 < i < |s| + 1 ==> ([x] + s)[i] == s[i - 1];
      [x] + s
    else
      var rest := InsertByDistance(x, s[1..]);
      assert s == [s[0]] + s[1..];
      InsertKeepsFront(s[0], x, s[1..], rest);
      [s[0]] + rest
  }

  /** `y` may stay in front when it is nearer than both `x` and everything in `t`. */
  lemma InsertKeepsFront(y: Impact, x: Impact, t: seq<Impact>, rest: seq<Impact>)
    requires SortedByDistance(rest)
    requires multiset(rest) == multiset(t) + multiset{x}
    requires y.distanceKm <= x.distanceKm
    requires forall z :: z in t ==> y.distanceKm <= z.distanceKm
    ensures SortedByDistance([y] + rest)
  {
    forall j | 0 <= j < |rest|
      ensures y.distanceKm <= rest[j].distanceKm
    {
      assert rest[j] in multiset(rest);
    }
  }

  /** `impacts.sort(key=lambda x: x[2])`: a stable sort on the distance. */
  function SortByDistance(s: seq<Impact>): (r: seq<Impact>)
    ensures SortedByDistance(r)
    ensures multiset(r) == multiset(s)
  {
    if s == [] then []
    else
      assert s == [s[0]] + s[1..];
      InsertByDistance(s[0], SortByDistance(s[1..]))
  }

  /** The entries at distance `d`, in order. */
  function AtDistance(s: seq<Impact>, d: real): seq<Impact> {
    if s == [] then []
    else (if s[0].distanceKm == d then [s[0]] else []) + AtDistance(s[1..], d)
  }

  lemma AtDistanceCons(y: Impact, t: seq<Impact>, d: real)
    ensures AtDistance([y] + t, d) == (if y.distanceKm == d then [y] else []) + AtDistance(t, d)
  {
    assert ([y] + t)[1..] == t;
  }

  lemma {:induction false} AtDistanceOfInsert(x: Impact, s: seq<Impact>, d: real)
    requires SortedByDistance(s)
    ensures AtDistance(InsertByDistance(x, s), d) == (if x.distanceKm == d then [x] else []) + AtDistance(s, d)
  {
    if s == [] || x.distanceKm <= s[0].distanceKm {
      assert InsertByDistance(x, s) == [x] + s;
      AtDistanceCons(x, s, d);
    } else {
      var rest := InsertByDistance(x, s[1..]);
      assert InsertByDistance(x, s) == [s[0]] + rest;
      AtDistanceCons(s[0], rest, d);
      AtDistanceCons(s[0], s[1..], d);
      assert s == [s[0]] + s[1..];
      AtDistanceOfInsert(x, s[1..], d);
    }
  }

  /** The sort is stable: entries at the same distance keep their relative order. */
  lemma {:induction false} SortIsStable(s: seq<Impact>, d: real)
    ensures AtDistance(SortByDistance(s), d) == AtDistance(s, d)
  {
    if s != [] {
      SortIsStable(s[1..], d);
      AtDistanceOfInsert(s[0], SortByDistance(s[1..]), d);
    }
  }

  lemma TotalOfAppend(s: seq<Impact>, x: Impact)
    ensures TotalImpact(s + [x]) == TotalImpact(s) + x.score
  {
    assert (s + [x])[..|s|] == s;
  }

  function Deduction(o: Option<Impact>): int {
    if o.Some? then o.value.score else 0
  }

  /** One more incident adds its deduction to the total. */
  lemma TotalOfRecordedAppend(g: Trig, paths: seq<seq<seq<real>>>, avoidLower: set<string>, events: seq<Event>, e: Event)
    ensures TotalImpact(RecordedImpacts(g, paths, avoidLower, events + [e]))
         == TotalImpact(RecordedImpacts(g, paths, avoidLower, events)) + Deduction(EventImpact(g, paths, avoidLower, e))
  {
    assert (events + [e])[..|events|] == events;
    var o := EventImpact(g, paths, avoidLower, e);
    if o.Some? {
      TotalOfAppend(RecordedImpacts(g, paths, avoidLower, events), o.value);
    }
  }

  /**
   * The recorded impacts are exactly those of the incidents of `events` whose
   * distance to the route is at most the reporting distance and whose impact
   * score is positive, each with that score and that distance.
   */
  lemma {:induction false} RecordedImpactsExactly(g: Trig, paths: seq<seq<seq<real>>>, avoidLower: set<string>, events: seq<Event>)
    ensures forall imp :: imp in RecordedImpacts(g, paths, avoidLower, events) ==>
      && imp.event in events
      && EventDistance(g, paths, imp.event) == Some(imp.distanceKm)
      && imp.distanceKm <= MaxReportDistanceKm
      && imp.score == CalculateImpactScore(imp.distanceKm, imp.event.severity, IsAvoided(imp.event, avoidLower))
      && imp.score > 0
    ensures forall e ::
      (&& e in events && EventDistance(g, paths, e).Some? && EventDistance(g, paths, e).value <= MaxReportDistanceKm
       && CalculateImpactScore(EventDistance(g, paths, e).value, e.severity, IsAvoided(e, avoidLower)) > 0) ==>
      Impact(e, CalculateImpactScore(EventDistance(g, paths, e).value, e.severity, IsAvoided(e, avoidLower)), EventDistance(g, paths, e).value)
        in RecordedImpacts(g, paths, avoidLower, events)
  {
    if events != [] {
      var init := events[..|events| - 1];
      var last := events[|events| - 1];
      assert events == init + [last];
      RecordedImpactsExactly(g, paths, avoidLower, init);
    }
  }

  /** Every recorded impact is positive, so the total is 0 exactly when nothing was recorded. */
  lemma {:induction false} TotalPositiveUnlessEmpty(s: seq<Impact>)
    requires forall i :: 0 <= i < |s| ==> s[i].score > 0
    ensures s == [] <==> TotalImpact(s) == 0
    ensures 0 <= TotalImpact(s)
  {
    if s != [] {
      TotalPositiveUnlessEmpty(s[..|s| - 1]);
    }
  }

  /** The score is 100 exactly when no impact was recorded. */
  lemma ScoreFullIffNoImpacts(g: Trig, paths: seq<seq<seq<real>>>, avoidLower: set<string>, events: seq<Event>)
    ensures FinalScore(TotalImpact(RecordedImpacts(g, paths, avoidLower, events))) == 100
        <==> RecordedImpacts(g, paths, avoidLower, events) == []
  {
    var r := RecordedImpacts(g, paths, avoidLower, events);
    RecordedImpactsExactly(g, paths, avoidLower, events);
    assert forall i :: 0 <= i < |r| ==> r[i] in r;
    TotalPositiveUnlessEmpty(r);
  }

  /** The score of a route for the given request, as `_score_route` returns it. */
  function RouteScoreOf(g: Trig, paths: seq<seq<seq<real>>>, avoidTypes: seq<string>, events: seq<Event>): (score: int)
    ensures 0 <= score <= 100
    ensures score == 100 <==> RecordedImpacts(g, paths, LowerAll(avoidTypes), ActiveEvents(events)) == []
  {
    ScoreFullIffNoImpacts(g, paths, LowerAll(avoidTypes), ActiveEvents(events));
    FinalScore(TotalImpact(RecordedImpacts(g, paths, LowerAll(avoidTypes), ActiveEvents(events))))
  }

  lemma FinalScoreAntitone(t1: int, t2: int)
    requires t1 <= t2
    ensures FinalScore(t2) <= FinalScore(t1)
  {
  }

  /** One more incident in the database never raises a route's score. */
  lemma AddingEventNeverRaisesScore(g: Trig, paths: seq<seq<seq<real>>>, avoidTypes: seq<string>, events: seq<Event>, e: Event)
    ensures RouteScoreOf(g, paths, avoidTypes, events + [e]) <= RouteScoreOf(g, paths, avoidTypes, events)
  {
    hide EventDistance;
    var active := ActiveEvents(events);
    assert (events + [e])[..|events|] == events;
    var avoidLower := LowerAll(avoidTypes);
    if e.status == "active" {
      assert ActiveEvents(events + [e]) == active + [e];
      TotalOfRecordedAppend(g, paths, avoidLower, active, e);
    }
    FinalScoreAntitone(TotalImpact(RecordedImpacts(g, paths, avoidLower, active)),
                       TotalImpact(RecordedImpacts(g, paths, avoidLower, ActiveEvents(events + [e]))));
  }

  /** Avoiding more types never lowers an incident's deduction. */
  lemma DeductionMonotoneInAvoid(minDistance: Option<real>, e: Event, a: set<string>, b: set<string>)
    requires a <= b
    ensures Deduction(ImpactAt(minDistance, e, a)) <= Deduction(ImpactAt(minDistance, e, b))
  {
    if minDistance.Some? && minDistance.value <= MaxReportDistanceKm && !IsAvoided(e, a) {
      AvoidedNeverLowers(minDistance.value, e.severity);
    }
  }

  lemma {:induction false} TotalMonotoneInAvoid(g: Trig, paths: seq<seq<seq<real>>>, a: set<string>, b: set<string>, events: seq<Event>)
    requires a <= b
    ensures TotalImpact(RecordedImpacts(g, paths, a, events)) <= TotalImpact(RecordedImpacts(g, paths, b, events))
  {
    if events != [] {
      var init, last := events[..|events| - 1], events[|events| - 1];
      assert events == init + [last];
      TotalMonotoneInAvoid(g, paths, a, b, init);
      TotalOfRecordedAppend(g, paths, a, init, last);
      TotalOfRecordedAppend(g, paths, b, init, last);
      DeductionMonotoneInAvoid(EventDistance(g, paths, last), last, a, b);
    }
  }

  /** Asking to avoid more incident types never raises a route's score. */
  lemma AvoidingMoreNeverRaisesScore(g: Trig, paths: seq<seq<seq<real>>>, fewer: seq<string>, more: seq<string>, events: seq<Event>)
    requires forall t :: t in fewer ==> t in more
    ensures RouteScoreOf(g, paths, more, events) <= RouteScoreOf(g, paths, fewer, events)
  {
    var active := ActiveEvents(events);
    TotalMonotoneInAvoid(g, paths, LowerAll(fewer), LowerAll(more), active);
    FinalScoreAntitone(TotalImpact(RecordedImpacts(g, paths, LowerAll(fewer), active)),
                       TotalImpact(RecordedImpacts(g, paths, LowerAll(more), active)));
  }

  /** A nearer incident never has a smaller deduction. */
  lemma DeductionMonotoneInDistance(far: Option<real>, near: Option<real>, e: Event, avoidLower: set<string>)
    requires far.Some? ==> near.Some? && near.value <= far.value
    ensures Deduction(ImpactAt(far, e, avoidLower)) <= Deduction(ImpactAt(near, e, avoidLower))
  {
    if far.Some? && far.value <= MaxReportDistanceKm {
      ImpactNonIncreasingInDistance(near.value, far.value, e.severity, IsAvoided(e, avoidLower));
    }
  }

  lemma {:induction false} TotalMonotoneInPaths(g: Trig, paths: seq<seq<seq<real>>>, p: seq<seq<real>>, avoidLower: set<string>, events: seq<Event>)
    ensures TotalImpact(RecordedImpacts(g, paths, avoidLower, events)) <= TotalImpact(RecordedImpacts(g, paths + [p], avoidLower, events))
  {
    hide RecordedImpacts, TotalImpact, PathMinDistance;
    if events != [] {
      var init, last := events[..|events| - 1], events[|events| - 1];
      assert events == init + [last];
      TotalMonotoneInPaths(g, paths, p, avoidLower, init);
      TotalOfRecordedAppend(g, paths, avoidLower, init, last);
      TotalOfRecordedAppend(g, paths + [p], avoidLower, init, last);
      var ds := PathDistances(g, paths, last.latitude, last.longitude);
      var ds' := PathDistances(g, paths + [p], last.latitude, last.longitude);
      assert ds'[..|paths|] == ds;
      assert ds' == ds + [PathMinDistance(g, p, last.latitude, last.longitude)];
      assert ds'[..|ds'| - 1] == ds;
      DeductionMonotoneInDistance(EventDistance(g, paths, last), EventDistance(g, paths + [p], last), last, avoidLower);
    }
  }

  /** One more path in the route never raises its score: incidents can only come nearer. */
  lemma AddingPathNeverRaisesScore(g: Trig, paths: seq<seq<seq<real>>>, p: seq<seq<real>>, avoidTypes: seq<string>, events: seq<Event>)
    ensures RouteScoreOf(g, paths + [p], avoidTypes, events) <= RouteScoreOf(g, paths, avoidTypes, events)
  {
    var active, avoidLower := ActiveEvents(events), LowerAll(avoidTypes);
    TotalMonotoneInPaths(g, paths, p, avoidLower, active);
    FinalScoreAntitone(TotalImpact(RecordedImpacts(g, paths, avoidLower, active)),
                       TotalImpact(RecordedImpacts(g, paths + [p], avoidLower, active)));
  }

  /** What `_score_route` promises of its result: the score is 100 exactly when nothing is reported, and what it reports. */
  lemma ScoreRouteResult(g: Trig, paths: seq<seq<seq<real>>>, avoidTypes: seq<string>, events: seq<Event>)
    ensures var recorded := RecordedImpacts(g, paths, LowerAll(avoidTypes), ActiveEvents(events));
      && (FinalScore(TotalImpact(recorded)) == 100 <==> SortByDistance(recorded) == [])
      && forall imp :: imp in SortByDistance(recorded) ==>
        && imp.event in events && imp.event.status == "active"
        && EventDistance(g, paths, imp.event) == Some(imp.distanceKm)
        && imp.distanceKm <= MaxReportDistanceKm
        && imp.score == CalculateImpactScore(imp.distanceKm, imp.event.severity, IsAvoided(imp.event, LowerAll(avoidTypes)))
        && imp.score > 0
  {
    var avoidLower, active := LowerAll(avoidTypes), ActiveEvents(events);
    var recorded := RecordedImpacts(g, paths, avoidLower, active);
    ScoreFullIffNoImpacts(g, paths, avoidLower, active);
    RecordedImpactsExactly(g, paths, avoidLower, active);
    var sorted := SortByDistance(recorded);
    assert forall imp :: imp in sorted ==> imp in multiset(recorded);
    if sorted == [] {
      assert |recorded| == |multiset(recorded)| == 0;
    }
  }

  /** Lines 131-138 of `_score_route`: the least distance from the incident to any of the paths that has one. */
  method NearestPathDistance(g: Trig, paths: seq<seq<seq<real>>>, event: Event) returns (minDistance: Option<real>)
    ensures minDistance == EventDistance(g, paths, event)
  {
    hide PathMinDistance;
    ghost var ds := PathDistances(g, paths, event.latitude, event.longitude);
    minDistance := None;
    for j := 0 to |paths|
      invariant minDistance == MinOf(ds[..j])
    {
      assert ds[..j + 1][..j] == ds[..j];
      var distanceKm := MinDistanceToPath(g, paths[j], event.latitude, event.longitude);
      if distanceKm.Some? {
        if minDistance.None? || distanceKm.value < minDistance.value {
          minDistance := distanceKm;
        }
      }
    }
    assert ds[..|paths|] == ds;
  }

  /**
   * Lines 130-149 of `_score_route`: for each incident, the least distance
   * over the paths; skip it beyond the reporting distance, else record its
   * impact when positive and add it to the total.
   */
  method RecordImpacts(g: Trig, paths: seq<seq<seq<real>>>, avoidTypesLower: set<string>, activeEvents: seq<Event>)
    returns (impacts: seq<Impact>, totalImpact: int)
    ensures impacts == RecordedImpacts(g, paths, avoidTypesLower, activeEvents)
    ensures totalImpact == TotalImpact(impacts)
  {
    hide EventDistance;
    impacts := [];
    totalImpact := 0;
    for k := 0 to |activeEvents|
      invariant impacts == RecordedImpacts(g, paths, avoidTypesLower, activeEvents[..k])
      invariant totalImpact == TotalImpact(impacts)
    {
      var event := activeEvents[k];
      assert activeEvents[..k + 1][..k] == activeEvents[..k];
      var minDistance := NearestPathDistance(g, paths, event);
      if minDistance.None? || minDistance.value > MaxReportDistanceKm {
        continue;
      }
      var isAvoidedType := Lower(event.eventType) in avoidTypesLower;
      var impactScore := CalculateImpactScore(minDistance.value, event.severity, isAvoidedType);
      if impactScore > 0 {
        TotalOfAppend(impacts, Impact(event, impactScore, minDistance.value));
        impacts := impacts + [Impact(event, impactScore, minDistance.value)];
        totalImpact := totalImpact + impactScore;
      }
    }
    assert activeEvents[..|activeEvents|] == activeEvents;
  }

  /**
   * `_score_route`: record the impacts of the active incidents, then clamp
   * 100 less the total and sort the impacts by distance.
   */
  method ScoreRoute(g: Trig, paths: seq<seq<seq<real>>>, avoidTypes: seq<string>, events: seq<Event>)
    returns (score: int, impacts: seq<Impact>)
    ensures var recorded := RecordedImpacts(g, paths, LowerAll(avoidTypes), ActiveEvents(events));
      impacts == SortByDistance(recorded) && score == FinalScore(TotalImpact(recorded))
    ensures score == RouteScoreOf(g, paths, avoidTypes, events)
    ensures 0 <= score <= 100
    ensures score == 100 <==> impacts == []
    ensures SortedByDistance(impacts)
    ensures forall imp :: imp in impacts ==>
      && imp.event in events && imp.event.status == "active"
      && EventDistance(g, paths, imp.event) == Some(imp.distanceKm)
      && imp.distanceKm <= MaxReportDistanceKm
      && imp.score == CalculateImpactScore(imp.distanceKm, imp.event.severity, IsAvoided(imp.event, LowerAll(avoidTypes)))
      && imp.score > 0
  {
    var avoidTypesLower := LowerAll(avoidTypes);
    var activeEvents := ActiveEvents(events);
    var totalImpact;
    impacts, totalImpact := RecordImpacts(g, paths, avoidTypesLower, activeEvents);
    score := Max(0, Min(100, RoundHalfEven(100.0 - totalImpact as real)));
    impacts := SortByDistance(impacts);
    ScoreRouteResult(g, paths, avoidTypes, events);
  }
}
