/**
 * The route-progress and point-of-interest rules of the MapLibre navigation screen
 * (`MainActivity` of WatchDogsMap): matching the user's position to a turn step, the periodic
 * scan that highlights the ATMs near the user, the routing-profile choice and the guard on
 * route requests. Geodesic distance (`LatLng.distanceTo`, in metres) is floating-point
 * arithmetic outside the model, so every rule that measures takes it as a parameter.
 */
module WatchDogsMap {
  import opened Common
  import opened TurnInstructions

  /** A geographic position in degrees (`LatLng`, `Point`). */
  datatype Position = Position(latitude: real, longitude: real)

  /** `LatLng.distanceTo`: the distance in metres from the first position to the second. */
  type Distance = (Position, Position) -> real

  /** A step counts as reached within this many metres of its first waypoint. */
  const STEP_TOLERANCE: real := 20.0
  /** ATMs within this many metres of the user are highlighted. */
  const SCAN_RADIUS: real := 500.0

  const ATM := "atm"
  const ATM_HIGHLIGHTED := "atm_highlighted"
  const HIGHLIGHTED_SUFFIX := "_highlighted"

  /** The geometry of a GeoJSON feature, as far as the rules look at it. */
  datatype Geometry = LineString(coordinates: seq<Position>) | Point(position: Position) | OtherGeometry

  /** A GeoJSON feature: its geometry is fixed, its "icon" property is rewritten in place. */
  class Feature {
    const geometry: Geometry
    var icon: string

    constructor (geometry: Geometry, icon: string)
      ensures this.geometry == geometry
      ensures this.icon == icon
    {
      this.geometry := geometry;
      this.icon := icon;
    }
  }

  /** A `FeatureCollection`, whose `features()` may be null. */
  datatype FeatureCollection = FeatureCollection(features: Option<seq<Feature>>)

  /** A call of `getRoute(start, end, profile)`. */
  datatype RouteRequest = RouteRequest(start: Position, end: Position, profile: string)

  // ---------------------------------------------------------------------------------------
  // Route progress

  /** The outcome of the step-matching loop: no step reached, the first step reached, or the
      lookup `coordinates[stepPointIndex]` that throws because the first waypoint is
      negative. */
  datatype StepMatch = NoMatch | Matched(index: nat) | LookupFails(index: nat)

  /** The step's first waypoint exists and names a coordinate of the route. */
  predicate OnRoute(step: RouteStep, coordinates: seq<Position>)
  {
    |step.wayPoints| > 0 && 0 <= step.wayPoints[0] < |coordinates|
  }

  /** The user is within the tolerance of the step's first waypoint. */
  predicate Reached(step: RouteStep, coordinates: seq<Position>, user: Position, distance: Distance)
  {
    OnRoute(step, coordinates) && distance(user, coordinates[step.wayPoints[0]]) < STEP_TOLERANCE
  }

  /** The step's first waypoint is negative, so the coordinate lookup throws. */
  predicate LookupThrows(step: RouteStep)
  {
    |step.wayPoints| > 0 && step.wayPoints[0] < 0
  }

  /** The steps from `from` on, examined in list order: the first one reached, unless a step
      whose lookup throws comes before it. */
  function FirstStep(steps: seq<RouteStep>, coordinates: seq<Position>, user: Position,
                     distance: Distance, from: nat): (m: StepMatch)
    decreases |steps| - from
    ensures m.Matched? ==>
      from <= m.index < |steps| && Reached(steps[m.index], coordinates, user, distance)
    ensures m.LookupFails? ==> from <= m.index < |steps| && LookupThrows(steps[m.index])
    ensures forall j :: from <= j < |steps| && (m.NoMatch? || j < m.index) ==>
      !Reached(steps[j], coordinates, user, distance) && !LookupThrows(steps[j])
  {
    if from >= |steps| then NoMatch
    else if Reached(steps[from], coordinates, user, distance) then Matched(from)
    else if LookupThrows(steps[from]) then LookupFails(from)
    else FirstStep(steps, coordinates, user, distance, from + 1)
  }

  /** The step-matching loop of `onLocationChanged`. */
  method MatchStep(steps: seq<RouteStep>, coordinates: seq<Position>, user: Position,
                   distance: Distance) returns (m: StepMatch)
    ensures m == FirstStep(steps, coordinates, user, distance, 0)
  {
    for index := 0 to |steps|
      invariant FirstStep(steps, coordinates, user, distance, 0)
        == FirstStep(steps, coordinates, user, distance, index)
    {
      var step := steps[index];
      if |step.wayPoints| == 0 {
        continue;
      }
      var stepPointIndex := step.wayPoints[0];
      if stepPointIndex >= |coordinates| {
        continue;
      }
      if stepPointIndex < 0 {
        return LookupFails(index);
      }
      var stepLocation := coordinates[stepPointIndex];
      if distance(user, stepLocation) < STEP_TOLERANCE {
        return Matched(index);
      }
    }
    return NoMatch;
  }

  /** What `onLocationChanged` finds on the current route: no match when there is no route,
      the route has no features (null or empty), or its first feature is not a line. */
  function RouteMatch(route: Option<FeatureCollection>, steps: seq<RouteStep>, user: Position,
                      distance: Distance): (m: StepMatch)
    ensures route.None? ==> m == NoMatch
    ensures route.Some? && (route.value.features.None? || route.value.features.value == []) ==>
      m == NoMatch
    ensures route.Some? && route.value.features.Some? && route.value.features.value != [] ==>
      var geometry := route.value.features.value[0].geometry;
      (!geometry.LineString? ==> m == NoMatch) &&
      (geometry.LineString? ==> m == FirstStep(steps, geometry.coordinates, user, distance, 0))
  {
    if route.None? || route.value.features.None? || |route.value.features.value| == 0 then NoMatch
    else match route.value.features.value[0].geometry
      case LineString(coordinates) => FirstStep(steps, coordinates, user, distance, 0)
      case _ => NoMatch
  }

  // ---------------------------------------------------------------------------------------
  // Point-of-interest scan

  predicate EndsWith(s: string, suffix: string)
  {
    |suffix| <= |s| && s[|s| - |suffix|..] == suffix
  }

  /** The icon a feature has after the revert pass: a feature highlighted by the previous scan
      whose icon ends in "_highlighted" goes back to "atm". */
  function IconAfterRevert(icon: string, wasHighlighted: bool): string
  {
    if wasHighlighted && EndsWith(icon, HIGHLIGHTED_SUFFIX) then ATM else icon
  }

  /** A feature the scan highlights: a point whose icon is "atm" (after the revert) and that
      lies within the scan radius of the user. */
  predicate Qualifies(f: Feature, icon: string, user: Position, distance: Distance)
  {
    f.geometry.Point? && icon == ATM && distance(user, f.geometry.position) < SCAN_RADIUS
  }

  /** The icon a feature of the source ends the scan with. */
  function ScannedIcon(f: Feature, icon: string, wasHighlighted: bool, user: Position,
                       distance: Distance): string
  {
    var reverted := IconAfterRevert(icon, wasHighlighted);
    if Qualifies(f, reverted, user, distance) then ATM_HIGHLIGHTED else reverted
  }

  /** Reverting twice is reverting once: "atm" does not end in "_highlighted". */
  lemma RevertIdempotent(icon: string)
    ensures IconAfterRevert(IconAfterRevert(icon, true), true) == IconAfterRevert(icon, true)
  {
    assert !EndsWith(ATM, HIGHLIGHTED_SUFFIX);
  }

  /** Features that are neither ATMs nor highlighted keep their icon. */
  lemma OtherIconsUnchanged(f: Feature, icon: string, wasHighlighted: bool, user: Position,
                            distance: Distance)
    requires icon != ATM && !EndsWith(icon, HIGHLIGHTED_SUFFIX)
    ensures ScannedIcon(f, icon, wasHighlighted, user, distance) == icon
  {
  }

  /** A highlighted ATM the user has moved away from goes back to "atm". */
  lemma DistantAtmReverts(f: Feature, user: Position, distance: Distance)
    requires f.geometry.Point? && distance(user, f.geometry.position) >= SCAN_RADIUS
    ensures ScannedIcon(f, ATM_HIGHLIGHTED, true, user, distance) == ATM
  {
    assert ATM_HIGHLIGHTED[|ATM_HIGHLIGHTED| - |HIGHLIGHTED_SUFFIX|..] == HIGHLIGHTED_SUFFIX;
  }

  /** Scanning again from the same place changes no icon: the features the first scan
      highlighted revert to "atm" and qualify again, the others are left as they were. */
  lemma ScanIsStable(f: Feature, icon: string, wasHighlighted: bool, user: Position,
                     distance: Distance)
    ensures var highlighted := Qualifies(f, IconAfterRevert(icon, wasHighlighted), user, distance);
      ScannedIcon(f, ScannedIcon(f, icon, wasHighlighted, user, distance), highlighted, user, distance)
        == ScannedIcon(f, icon, wasHighlighted, user, distance)
  {
    assert ATM_HIGHLIGHTED[|ATM_HIGHLIGHTED| - |HIGHLIGHTED_SUFFIX|..] == HIGHLIGHTED_SUFFIX;
  }

  /** The features of `xs` that belong to `keep`, in the order of `xs`. */
  function InOrder(xs: seq<Feature>, keep: set<Feature>): (r: seq<Feature>)
    ensures |r| <= |xs|
    ensures forall k :: 0 <= k < |r| ==> r[k] in xs && r[k] in keep
    ensures forall k :: 0 <= k < |xs| && xs[k] in keep ==> xs[k] in r
  {
    if xs == [] then []
    else InOrder(xs[..|xs| - 1], keep) + (if xs[|xs| - 1] in keep then [xs[|xs| - 1]] else [])
  }

  /** Selection keeps the relative order: a feature before another in the selection is
      before it in the source. */
  lemma {:induction false} InOrderKeepsOrder(xs: seq<Feature>, keep: set<Feature>, i: nat, j: nat)
    requires i < j < |InOrder(xs, keep)|
    ensures exists a, b ::
      0 <= a < b < |xs| && xs[a] == InOrder(xs, keep)[i] && xs[b] == InOrder(xs, keep)[j]
  {
    var front := xs[..|xs| - 1];
    var r := InOrder(front, keep);
    if j < |r| {
      InOrderKeepsOrder(front, keep, i, j);
      var a, b :| 0 <= a < b < |front| && front[a] == r[i] && front[b] == r[j];
      assert xs[a] == InOrder(xs, keep)[i] && xs[b] == InOrder(xs, keep)[j];
    } else {
      assert InOrder(xs, keep)[j] == xs[|xs| - 1];
      assert r[i] in front;
      var a :| 0 <= a < |front| && front[a] == r[i];
      assert xs[a] == InOrder(xs, keep)[i];
    }
  }

  /** No feature occurs twice in the sequence. */
  predicate Distinct(xs: seq<Feature>)
  {
    forall i, j :: 0 <= i < j < |xs| ==> xs[i] != xs[j]
  }

  // ---------------------------------------------------------------------------------------
  // Routing profile

  /** The profile `when` of the navigate button: the radio button checked, compared with the
      walking id first, then the cycling id. */
  function RoutingProfile(checkedId: int, walkingId: int, cyclingId: int): (profile: string)
    ensures profile in {"walking", "cycling", "driving"}
    ensures profile == "walking" <==> checkedId == walkingId
    ensures profile == "cycling" <==> checkedId != walkingId && checkedId == cyclingId
    ensures profile == "driving" <==> checkedId != walkingId && checkedId != cyclingId
  {
    if checkedId == walkingId then "walking"
    else if checkedId == cyclingId then "cycling"
    else "driving"
  }

  // ---------------------------------------------------------------------------------------
  // The activity

  class MainActivity {
    var userLocation: Option<Position>
    var destination: Option<Position>
    var currentRoute: Option<FeatureCollection>
    /** The ATM features the last scan highlighted. */
    var highlightedFeatures: seq<Feature>
    /** The features last written to the marker source by a scan. */
    var publishedMarkers: Option<seq<Feature>>
    /** The `getRoute` calls made so far, oldest first. */
    var routeRequests: seq<RouteRequest>
    const turnInstructionsAdapter: TurnInstructionsAdapter

    /** `onCreate` with `setupTurnInstructions`: nothing known yet, an empty instruction list. */
    constructor ()
      ensures userLocation == None && destination == None && currentRoute == None
      ensures highlightedFeatures == [] && publishedMarkers == None && routeRequests == []
      ensures fresh(turnInstructionsAdapter)
      ensures turnInstructionsAdapter.instructions == []
      ensures turnInstructionsAdapter.highlightedPosition == 0
    {
      userLocation := None;
      destination := None;
      currentRoute := None;
      highlightedFeatures := [];
      publishedMarkers := None;
      routeRequests := [];
      turnInstructionsAdapter := new TurnInstructionsAdapter([]);
    }

    /** The search-result callback of `setupSearch`: the chosen address becomes the
        destination. */
    method OnAddressSelected(address: Position)
      modifies this
      ensures destination == Some(address)
      ensures userLocation == old(userLocation) && currentRoute == old(currentRoute)
      ensures highlightedFeatures == old(highlightedFeatures)
      ensures publishedMarkers == old(publishedMarkers) && routeRequests == old(routeRequests)
    {
      destination := Some(address);
    }

    /** The navigate button: a route is requested, with the chosen profile, only when both the
        user's location and the destination are known. */
    method OnNavigateClick(checkedId: int, walkingId: int, cyclingId: int)
      modifies this
      ensures routeRequests == old(routeRequests)
        + (if userLocation.Some? && destination.Some?
           then [RouteRequest(userLocation.value, destination.value,
                              RoutingProfile(checkedId, walkingId, cyclingId))]
           else [])
      ensures userLocation == old(userLocation) && destination == old(destination)
      ensures currentRoute == old(currentRoute) && highlightedFeatures == old(highlightedFeatures)
      ensures publishedMarkers == old(publishedMarkers)
    {
      if userLocation.Some? {
        var user := userLocation.value;
        if destination.Some? {
          var dest := destination.value;
          var profile := RoutingProfile(checkedId, walkingId, cyclingId);
          routeRequests := routeRequests + [RouteRequest(user, dest, profile)];
        }
      }
    }

    /** The part of `getRoute`'s success path that changes state: the route line becomes the
        current route and its steps replace the turn instructions. */
    method ShowRoute(coordinates: seq<Position>, steps: seq<RouteStep>)
      modifies this, turnInstructionsAdapter
      ensures currentRoute.Some? && currentRoute.value.features.Some?
      ensures |currentRoute.value.features.value| == 1
      ensures currentRoute.value.features.value[0].geometry == LineString(coordinates)
      ensures turnInstructionsAdapter.instructions == steps
      ensures turnInstructionsAdapter.highlightedPosition == 0
      ensures turnInstructionsAdapter.notifications
        == old(turnInstructionsAdapter.notifications) + [DataSetChanged]
      ensures userLocation == old(userLocation) && destination == old(destination)
      ensures highlightedFeatures == old(highlightedFeatures)
      ensures publishedMarkers == old(publishedMarkers) && routeRequests == old(routeRequests)
    {
      var routeFeature := new Feature(LineString(coordinates), "");
      currentRoute := Some(FeatureCollection(Some([routeFeature])));
      turnInstructionsAdapter.UpdateInstructions(steps);
    }

    /**
     * `onLocationChanged`: records the new location and, on a line route, highlights the first
     * step the user has reached, notifying the list only when the highlight moves. `crashed`
     * reports the exception a negative first waypoint raises; the highlight is then left as
     * it was.
     */
    method OnLocationChanged(location: Position, distance: Distance) returns (crashed: bool)
      modifies this, turnInstructionsAdapter
      ensures userLocation == Some(location)
      ensures destination == old(destination) && currentRoute == old(currentRoute)
      ensures highlightedFeatures == old(highlightedFeatures)
      ensures publishedMarkers == old(publishedMarkers) && routeRequests == old(routeRequests)
      ensures turnInstructionsAdapter.instructions == old(turnInstructionsAdapter.instructions)
      ensures var m := RouteMatch(currentRoute, turnInstructionsAdapter.instructions, location, distance);
        var previous := old(turnInstructionsAdapter.highlightedPosition);
        && crashed == m.LookupFails?
        && (if m.Matched? && m.index != previous then
              turnInstructionsAdapter.highlightedPosition == m.index
              && turnInstructionsAdapter.notifications
                 == old(turnInstructionsAdapter.notifications) + HighlightNotifications(previous, m.index)
            else
              turnInstructionsAdapter.highlightedPosition == previous
              && turnInstructionsAdapter.notifications == old(turnInstructionsAdapter.notifications))
    {
      userLocation := Some(location);
      crashed := false;
      if currentRoute.None? {
        return;
      }
      var features := currentRoute.value.features;
      if features.None? || |features.value| == 0 {
        return;
      }
      var geometry := features.value[0].geometry;
      if !geometry.LineString? {
        return;
      }
      var m := MatchStep(turnInstructionsAdapter.instructions, geometry.coordinates, location, distance);
      match m
      case NoMatch =>
      case LookupFails(_) =>
        crashed := true;
      case Matched(index) =>
        if index != turnInstructionsAdapter.highlightedPosition {
          turnInstructionsAdapter.SetHighlightedPosition(index);
        }
    }

    /**
     * `scanForNearbyPois`: `currentFeatures` is what the marker source holds (None when the
     * style, the source or its collection is missing, and the scan does nothing). The
     * previously highlighted features are reverted, then every ATM point within the radius is
     * highlighted, in source order, and the same features are written back in the same order.
     * Features are objects: one that is both in the old highlight list and in the source is
     * the same feature, so the revert is seen by the scan. `selected` names the features the
     * scan highlights.
     */
    method ScanForNearbyPois(user: Position, currentFeatures: Option<seq<Feature>>, distance: Distance)
      returns (ghost selected: set<Feature>)
      requires currentFeatures.Some? ==> Distinct(currentFeatures.value)
      modifies this, highlightedFeatures, if currentFeatures.Some? then currentFeatures.value else []
      ensures userLocation == old(userLocation) && destination == old(destination)
      ensures currentRoute == old(currentRoute) && routeRequests == old(routeRequests)
      ensures currentFeatures.None? ==>
        highlightedFeatures == old(highlightedFeatures) && publishedMarkers == old(publishedMarkers)
      ensures currentFeatures.None? ==>
        forall f :: f in old(highlightedFeatures) ==> f.icon == old(f.icon)
      ensures currentFeatures.Some? ==> publishedMarkers == currentFeatures
      ensures currentFeatures.Some? ==> forall f :: f in selected <==>
        (f in currentFeatures.value
         && Qualifies(f, IconAfterRevert(old(f.icon), f in old(highlightedFeatures)), user, distance))
      ensures currentFeatures.Some? ==> highlightedFeatures == InOrder(currentFeatures.value, selected)
      ensures currentFeatures.Some? ==> forall f :: f in currentFeatures.value ==>
        f.icon == ScannedIcon(f, old(f.icon), f in old(highlightedFeatures), user, distance)
      ensures currentFeatures.Some? ==> forall f ::
        f in old(highlightedFeatures) && f !in currentFeatures.value ==>
        f.icon == IconAfterRevert(old(f.icon), true)
      ensures currentFeatures.Some? ==> forall f :: f in highlightedFeatures ==> f.icon == ATM_HIGHLIGHTED
    {
      selected := {};
      if currentFeatures.Some? {
        selected := Rescan(user, currentFeatures.value, distance);
      }
    }

    /** The scan once the marker features are at hand. */
    method Rescan(user: Position, current: seq<Feature>, distance: Distance)
      returns (ghost selected: set<Feature>)
      requires Distinct(current)
      modifies this, highlightedFeatures, current
      ensures userLocation == old(userLocation) && destination == old(destination)
      ensures currentRoute == old(currentRoute) && routeRequests == old(routeRequests)
      ensures publishedMarkers == Some(current)
      ensures forall f :: f in selected <==>
        (f in current
         && Qualifies(f, IconAfterRevert(old(f.icon), f in old(highlightedFeatures)), user, distance))
      ensures highlightedFeatures == InOrder(current, selected)
      ensures forall f :: f in current ==>
        f.icon == if f in selected then ATM_HIGHLIGHTED
                  else IconAfterRevert(old(f.icon), f in old(highlightedFeatures))
      ensures forall f :: f in old(highlightedFeatures) && f !in current ==>
        f.icon == IconAfterRevert(old(f.icon), true)
    {
      ghost var previous := highlightedFeatures;
      RevertHighlighted();
      highlightedFeatures := [];
      forall f | f in current
        ensures f.icon == IconAfterRevert(old(f.icon), f in previous)
      {
      }
      selected := set f | f in current && Qualifies(f, f.icon, user, distance);
      var featuresToUpdate := HighlightNearby(user, current, distance, selected);
      publishedMarkers := Some(featuresToUpdate);
    }

    /** The revert pass of the scan: every previously highlighted feature whose icon ends in
        "_highlighted" gets the icon "atm" back; no other feature changes. */
    method RevertHighlighted()
      modifies highlightedFeatures
      ensures forall f :: f in highlightedFeatures ==> f.icon == IconAfterRevert(old(f.icon), true)
    {
      for k := 0 to |highlightedFeatures|
        invariant forall f :: f in highlightedFeatures ==>
          f.icon == if f in highlightedFeatures[..k] then IconAfterRevert(old(f.icon), true) else old(f.icon)
      {
        var feature := highlightedFeatures[k];
        RevertIdempotent(old(feature.icon));
        if EndsWith(feature.icon, HIGHLIGHTED_SUFFIX) {
          feature.icon := ATM;
        }
        assert highlightedFeatures[..k + 1] == highlightedFeatures[..k] + [feature];
      }
      assert highlightedFeatures[..|highlightedFeatures|] == highlightedFeatures;
    }

    /** One turn of the highlight loop: an ATM point within the radius gets the icon
        "atm_highlighted" and joins the highlight list. */
    method HighlightIfNear(user: Position, feature: Feature, distance: Distance)
      modifies this`highlightedFeatures, feature
      ensures feature.icon
        == if Qualifies(feature, old(feature.icon), user, distance) then ATM_HIGHLIGHTED else old(feature.icon)
      ensures highlightedFeatures == old(highlightedFeatures)
        + if Qualifies(feature, old(feature.icon), user, distance) then [feature] else []
    {
      if feature.geometry.Point? && feature.icon == ATM {
        var point := feature.geometry.position;
        if distance(user, point) < SCAN_RADIUS {
          feature.icon := ATM_HIGHLIGHTED;
          highlightedFeatures := highlightedFeatures + [feature];
        }
      }
    }

    /** The highlight pass of the scan, starting from an empty highlight list: the ATM points
        within the radius get the icon "atm_highlighted" and join the list in source order;
        the features are returned for writing back, unchanged in number and order. */
    method HighlightNearby(user: Position, current: seq<Feature>, distance: Distance,
                           ghost keep: set<Feature>)
      returns (featuresToUpdate: seq<Feature>)
      requires Distinct(current)
      requires highlightedFeatures == []
      requires forall f :: f in keep <==> f in current && Qualifies(f, f.icon, user, distance)
      modifies this`highlightedFeatures, current
      ensures featuresToUpdate == current
      ensures highlightedFeatures == InOrder(current, keep)
      ensures forall f :: f in current ==> f.icon == if f in keep then ATM_HIGHLIGHTED else old(f.icon)
    {
      featuresToUpdate := [];
      for i := 0 to |current|
        invariant featuresToUpdate == current[..i]
        invariant highlightedFeatures == InOrder(current[..i], keep)
        invariant forall j :: 0 <= j < i ==>
          current[j].icon == if current[j] in keep then ATM_HIGHLIGHTED else old(current[j].icon)
        invariant forall j :: i <= j < |current| ==> current[j].icon == old(current[j].icon)
      {
        var feature := current[i];
        assert current[..i + 1] == current[..i] + [feature];
        HighlightIfNear(user, feature, distance);
        featuresToUpdate := featuresToUpdate + [feature];
      }
      assert current[..|current|] == current;
    }
  }
}
