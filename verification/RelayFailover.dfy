/** internal/relaytransport/failover.go: the sticky choice of a relay route. */
module RelayFailover {
  import opened GoStrings
  import opened GoTime
  import opened Sequences

  const MINIMUM_OBSERVATION_AGE := 10 * SECOND
  const MAXIMUM_OBSERVATION_AGE := 60 * MINUTE
  const MAXIMUM_FAILURE_THRESHOLD := 10
  const MAXIMUM_FAILOVER_ROUTES := 16
  const MAXIMUM_ROUTE_ID_LENGTH := 200

  datatype RouteKind = Relay | Direct | UnknownKind(name: string)

  datatype Route = Route(id: string, kind: RouteKind, relayEndpointId: string, priority: int)

  datatype FailoverPolicy = FailoverPolicy(
    endpointId: string,
    routes: seq<Route>,
    failureThreshold: int,
    observationMaxAge: int)

  datatype Observation = Observation(routeId: string, healthy: bool, observedAt: int)

  datatype SelectionReason = ActiveRouteHealthy | ApprovedInitialRoute | ApprovedFailover | ServerSelectedApprovedRoute

  datatype RouteDecision = RouteDecision(
    route: Route,
    previousRouteId: string,
    reason: SelectionReason,
    consecutiveFailures: int,
    selectedAt: int)

  // ----- Policies

  predicate ValidBounds(policy: FailoverPolicy) {
    && !IsBlank(policy.endpointId) && |policy.endpointId| <= MAXIMUM_ROUTE_ID_LENGTH
    && 1 <= |policy.routes| <= MAXIMUM_FAILOVER_ROUTES
    && 1 <= policy.failureThreshold <= MAXIMUM_FAILURE_THRESHOLD
    && MINIMUM_OBSERVATION_AGE <= policy.observationMaxAge <= MAXIMUM_OBSERVATION_AGE
  }

  predicate ValidRoute(route: Route, endpointId: string) {
    && !IsBlank(route.id) && |route.id| <= MAXIMUM_ROUTE_ID_LENGTH
    && |route.relayEndpointId| <= MAXIMUM_ROUTE_ID_LENGTH
    && route.priority >= 1
    && ((route.kind.Relay? && route.relayEndpointId != "" && route.relayEndpointId != endpointId)
        || (route.kind.Direct? && route.relayEndpointId == ""))
  }

  /** Two routes of one policy differ in identifier and priority, and at most one is direct. */
  predicate Compatible(a: Route, b: Route) {
    a.id != b.id && a.priority != b.priority && !(a.kind.Direct? && b.kind.Direct?)
  }

  predicate AllCompatible(routes: seq<Route>) {
    forall i, j :: 0 <= i < j < |routes| ==> Compatible(routes[i], routes[j])
  }

  predicate ValidRoutes(routes: seq<Route>, endpointId: string) {
    (forall i :: 0 <= i < |routes| ==> ValidRoute(routes[i], endpointId)) && AllCompatible(routes)
  }

  predicate ValidFailoverPolicy(policy: FailoverPolicy) {
    ValidBounds(policy) && ValidRoutes(policy.routes, policy.endpointId)
  }

  /** The loop of `validateFailoverPolicy` remembers these of the routes before. */
  function Ids(routes: seq<Route>): set<string> { set r | r in routes :: r.id }

  function Priorities(routes: seq<Route>): set<int> { set r | r in routes :: r.priority }

  predicate HasDirect(routes: seq<Route>) { exists r :: r in routes && r.kind.Direct? }

  predicate Fits(routes: seq<Route>, route: Route) {
    route.id !in Ids(routes) && route.priority !in Priorities(routes) && !(route.kind.Direct? && HasDirect(routes))
  }

  lemma ExtendRoutes(routes: seq<Route>, route: Route, endpointId: string)
    ensures ValidRoutes(routes + [route], endpointId) <==>
      ValidRoutes(routes, endpointId) && ValidRoute(route, endpointId) && Fits(routes, route)
  {
    hide ValidRoute;
    var more := routes + [route];
    assert forall i :: 0 <= i < |routes| ==> more[i] == routes[i] && routes[i] in routes;
    assert more[|routes|] == route;
    if Fits(routes, route) {
      forall i | 0 <= i < |routes|
        ensures Compatible(routes[i], route)
      {
        assert routes[i].id in Ids(routes) && routes[i].priority in Priorities(routes);
      }
    } else if AllCompatible(more) {
      var r :| r in routes && (r.id == route.id || r.priority == route.priority || (r.kind.Direct? && route.kind.Direct?));
    }
  }

  lemma PrefixValid(routes: seq<Route>, n: nat, endpointId: string)
    requires n <= |routes| && ValidRoutes(routes, endpointId)
    ensures ValidRoutes(routes[..n], endpointId)
  {
  }

  lemma NoRoutes(endpointId: string)
    ensures ValidRoutes([], endpointId)
  {
  }

  method ValidatePolicy(policy: FailoverPolicy) returns (ok: bool)
    ensures ok == ValidFailoverPolicy(policy)
  {
    hide ValidRoutes, ValidRoute;
    if !ValidBounds(policy) {
      return false;
    }
    var routes, ids: set<string>, priorities: set<int>, directRoutes, next := policy.routes, {}, {}, false, 0;
    assert ValidRoutes(routes[..0], policy.endpointId) by { NoRoutes(policy.endpointId); assert routes[..0] == []; }
    while next < |routes|
      invariant 0 <= next <= |routes|
      invariant ids == Ids(routes[..next]) && priorities == Priorities(routes[..next])
      invariant directRoutes == HasDirect(routes[..next])
      invariant ValidRoutes(routes[..next], policy.endpointId)
    {
      var route := routes[next];
      assert routes[..next + 1] == routes[..next] + [route];
      ExtendRoutes(routes[..next], route, policy.endpointId);
      if !ValidRoute(route, policy.endpointId) || route.id in ids || route.priority in priorities
         || (route.kind.Direct? && directRoutes) {
        if ValidRoutes(routes, policy.endpointId) {
          PrefixValid(routes, next + 1, policy.endpointId);
        }
        return false;
      }
      ids, priorities, directRoutes := ids + {route.id}, priorities + {route.priority}, directRoutes || route.kind.Direct?;
      next := next + 1;
    }
    assert routes[..next] == routes;
    return true;
  }

  // ----- Availability

  /** Healthy and observed recently, allowing the clocks to differ by five minutes. */
  predicate Usable(o: Observation, maximumAge: int, now: int) {
    o.healthy && o.observedAt != ZERO_TIME && now - maximumAge <= o.observedAt <= now + 5 * MINUTE
  }

  function About(observations: seq<Observation>, id: string): seq<Observation> {
    Filter(observations, (o: Observation) => o.routeId == id)
  }

  /** Exactly one observation names the route, and that one is usable. */
  predicate Available(observations: seq<Observation>, maximumAge: int, now: int, id: string) {
    id != "" && |About(observations, id)| == 1 && Usable(About(observations, id)[0], maximumAge, now)
  }

  /** `availableRouteIDs`: a second observation of a route makes it unavailable for good. */
  method AvailableRouteIds(observations: seq<Observation>, maximumAge: int, now: int) returns (available: set<string>)
    ensures forall id :: id in available <==> Available(observations, maximumAge, now, id)
  {
    available := {};
    var seen: set<string>, next := {}, 0;
    while next < |observations|
      invariant 0 <= next <= |observations|
      invariant forall id :: id in seen <==> id != "" && About(observations[..next], id) != []
      invariant forall id :: id in available <==> Available(observations[..next], maximumAge, now, id)
    {
      hide Usable;
      var o := observations[next];
      assert observations[..next + 1][..next] == observations[..next];
      next := next + 1;
      if o.routeId == "" {
        continue;
      }
      if o.routeId in seen {
        available := available - {o.routeId};
        continue;
      }
      seen := seen + {o.routeId};
      if Usable(o, maximumAge, now) {
        available := available + {o.routeId};
      }
    }
    assert observations[..next] == observations;
  }

  ghost predicate SeenHealthy(observations: seq<Observation>, maximumAge: int, now: int, id: string) {
    exists i ::
      && 0 <= i < |observations| && observations[i].routeId == id
      && (forall j :: 0 <= j < |observations| && j != i ==> observations[j].routeId != id)
      && observations[i].healthy && observations[i].observedAt != ZERO_TIME
      && now - maximumAge <= observations[i].observedAt <= now + 5 * MINUTE
  }

  /** A route is available exactly when one observation in the list names it, and that one is
      healthy, not older than allowed and not from more than five minutes ahead. */
  lemma AvailableMeaning(observations: seq<Observation>, maximumAge: int, now: int, id: string)
    ensures Available(observations, maximumAge, now, id) <==> id != "" && SeenHealthy(observations, maximumAge, now, id)
  {
    hide Filter;
    var names := (o: Observation) => o.routeId == id;
    assert About(observations, id) == Filter(observations, names);
    if |About(observations, id)| == 1 {
      var i := FilterSingle(observations, names);
      FilterOnly(observations, names, i);
    }
    forall i | IsOnly(observations, names, i)
      ensures About(observations, id) == [observations[i]]
    {
      FilterOnly(observations, names, i);
    }
    forall i | 0 <= i < |observations| && observations[i].routeId == id
               && forall j :: 0 <= j < |observations| && j != i ==> observations[j].routeId != id
      ensures About(observations, id) == [observations[i]]
    {
      assert IsOnly(observations, names, i);
    }
  }

  /** The order of the observations does not matter. */
  lemma AvailabilityOrderIndependent(a: seq<Observation>, b: seq<Observation>, maximumAge: int, now: int, id: string)
    requires multiset(a) == multiset(b)
    ensures Available(a, maximumAge, now, id) == Available(b, maximumAge, now, id)
  {
    FilterPermutes(a, b, (o: Observation) => o.routeId == id);
    var x, y := About(a, id), About(b, id);
    if |x| == 1 {
      assert x[0] in multiset(y);
    }
  }

  // ----- Routes by priority

  predicate ByPriority(routes: seq<Route>) {
    forall i, j :: 0 <= i < j < |routes| ==> routes[i].priority <= routes[j].priority
  }

  function InsertRoute(routes: seq<Route>, route: Route): seq<Route> {
    if routes == [] || route.priority <= routes[0].priority then [route] + routes
    else [routes[0]] + InsertRoute(routes[1..], route)
  }

  /** `sort.Slice` by priority. */
  function SortRoutes(routes: seq<Route>): seq<Route> {
    if routes == [] then [] else InsertRoute(SortRoutes(routes[1..]), routes[0])
  }

  lemma {:induction false} InsertRouteSorts(routes: seq<Route>, route: Route)
    requires ByPriority(routes)
    ensures var r := InsertRoute(routes, route);
      ByPriority(r) && |r| == |routes| + 1 && forall x :: x in r <==> x == route || x in routes
  {
    if routes != [] && routes[0].priority < route.priority {
      InsertRouteSorts(routes[1..], route);
      assert routes == [routes[0]] + routes[1..];
      var rest := InsertRoute(routes[1..], route);
      forall i | 0 <= i < |rest|
        ensures routes[0].priority <= rest[i].priority
      {
        assert rest[i] in rest;
      }
    }
  }

  lemma {:induction false} SortRoutesSorts(routes: seq<Route>)
    ensures var r := SortRoutes(routes);
      ByPriority(r) && |r| == |routes| && forall x :: x in r <==> x in routes
  {
    if routes == [] {
    } else {
      SortRoutesSorts(routes[1..]);
      InsertRouteSorts(SortRoutes(routes[1..]), routes[0]);
      assert routes == [routes[0]] + routes[1..];
    }
  }

  // ----- The controller

  datatype Controller = Controller(activeRouteId: string, consecutiveFailures: int)

  /** The identifiers of the approved routes that are available. */
  function Health(policy: FailoverPolicy, observations: seq<Observation>, now: int): set<string> {
    set r | r in policy.routes && Available(observations, policy.observationMaxAge, now, r.id) :: r.id
  }

  function Find(routes: seq<Route>, id: string): (r: Option<Route>)
    ensures r.Some? ==> r.value in routes && r.value.id == id
    ensures r.None? <==> id !in Ids(routes)
  {
    if routes == [] then None
    else
      assert routes == [routes[0]] + routes[1..];
      if routes[0].id == id then Some(routes[0]) else Find(routes[1..], id)
  }

  /** The first route in priority order that is not the one to leave and is available. */
  function FirstOther(routes: seq<Route>, previous: string, health: set<string>): Option<Route> {
    if routes == [] then None
    else if routes[0].id != previous && routes[0].id in health then Some(routes[0])
    else FirstOther(routes[1..], previous, health)
  }

  datatype Outcome = Outcome(controller: Controller, decision: Option<RouteDecision>)

  predicate Keeps(c: Controller, policy: FailoverPolicy, health: set<string>) {
    c.activeRouteId != "" && c.consecutiveFailures < policy.failureThreshold && c.activeRouteId in health
  }

  function SelectOutcome(c: Controller, policy: FailoverPolicy, health: set<string>, now: int): Outcome {
    if Keeps(c, policy, health) then
      var active := Find(policy.routes, c.activeRouteId);
      Outcome(c, if active.None? then None
                 else Some(RouteDecision(active.value, c.activeRouteId, ActiveRouteHealthy, c.consecutiveFailures, now)))
    else
      match FirstOther(policy.routes, c.activeRouteId, health)
      case None => Outcome(c, None)
      case Some(route) =>
        Outcome(Controller(route.id, 0),
                Some(RouteDecision(route, c.activeRouteId,
                                   if c.activeRouteId != "" then ApprovedFailover else ApprovedInitialRoute,
                                   c.consecutiveFailures, now)))
  }

  function RecordOutcome(c: Controller, policy: FailoverPolicy, routeId: string, succeeded: bool): Option<Controller> {
    if routeId == "" || routeId != c.activeRouteId then None
    else if succeeded then Some(c.(consecutiveFailures := 0))
    else if c.consecutiveFailures < policy.failureThreshold then Some(c.(consecutiveFailures := c.consecutiveFailures + 1))
    else Some(c)
  }

  function ApproveOutcome(c: Controller, policy: FailoverPolicy, routeId: string, health: set<string>, now: int): Outcome {
    var route := Find(policy.routes, routeId);
    if routeId !in health || route.None? then Outcome(c, None)
    else Outcome(Controller(routeId, 0),
                 Some(RouteDecision(route.value, c.activeRouteId, ServerSelectedApprovedRoute, c.consecutiveFailures, now)))
  }

  /** The route with the best priority among the available ones other than `previous`. */
  predicate IsBestOther(routes: seq<Route>, previous: string, health: set<string>, route: Route) {
    && route in routes && route.id != previous && route.id in health
    && forall r :: r in routes && r.id != previous && r.id in health ==> route.priority <= r.priority
  }

  lemma {:induction false} FirstOtherIsBest(routes: seq<Route>, previous: string, health: set<string>)
    requires ByPriority(routes)
    ensures var r := FirstOther(routes, previous, health);
      && (r.Some? ==> IsBestOther(routes, previous, health, r.value))
      && (r.None? ==> forall x :: x in routes && x.id in health ==> x.id == previous)
  {
    if routes == [] {
    } else {
      assert routes == [routes[0]] + routes[1..];
      FirstOtherIsBest(routes[1..], previous, health);
    }
  }

  /** Selection is sticky: the route changes only if it is unavailable or its failures have
      reached the threshold, and then to the best other available route. It fails exactly
      when it may not stay and no other route is available, and then nothing changes. The
      decision names both routes, the reason, the failures so far and the time. */
  lemma SelectMeaning(c: Controller, policy: FailoverPolicy, health: set<string>, now: int)
    requires ByPriority(policy.routes) && (c.activeRouteId == "" || c.activeRouteId in Ids(policy.routes))
    ensures var out := SelectOutcome(c, policy, health, now);
      && var stays := c.activeRouteId != "" && c.consecutiveFailures < policy.failureThreshold && c.activeRouteId in health;
      && (out.decision.None? <==>
            (!stays && forall r :: r in policy.routes && r.id in health ==> r.id == c.activeRouteId))
      && (out.decision.None? ==> out.controller == c)
      && (out.decision.Some? ==>
            var decision := out.decision.value;
            && decision.previousRouteId == c.activeRouteId && decision.selectedAt == now
            && decision.consecutiveFailures == c.consecutiveFailures
            && (decision.reason.ActiveRouteHealthy? <==> stays)
            && (stays ==> out.controller == c && decision.route in policy.routes && decision.route.id == c.activeRouteId)
            && (!stays ==>
                  && IsBestOther(policy.routes, c.activeRouteId, health, decision.route)
                  && out.controller == Controller(decision.route.id, 0)
                  && decision.reason == if c.activeRouteId == "" then ApprovedInitialRoute else ApprovedFailover))
  {
    FirstOtherIsBest(policy.routes, c.activeRouteId, health);
  }

  /** The routes whose health counts are the approved ones that are available. */
  lemma HealthMeaning(policy: FailoverPolicy, observations: seq<Observation>, now: int, id: string)
    ensures id in Health(policy, observations, now) <==>
      id in Ids(policy.routes) && Available(observations, policy.observationMaxAge, now, id)
  {
    hide Available;
  }

  /** A route the server asks for is taken exactly when it is approved and available now; the
      decision then names it and the route before, and its failures start at zero. Otherwise
      nothing changes. */
  lemma ApproveMeaning(c: Controller, policy: FailoverPolicy, routeId: string, observations: seq<Observation>, now: int)
    ensures var out := ApproveOutcome(c, policy, routeId, Health(policy, observations, now), now);
      && (out.decision.Some? <==>
            routeId in Ids(policy.routes) && Available(observations, policy.observationMaxAge, now, routeId))
      && (out.decision.Some? ==>
            var decision := out.decision.value;
            && decision.route in policy.routes && decision.route.id == routeId
            && decision.previousRouteId == c.activeRouteId && decision.reason.ServerSelectedApprovedRoute?
            && decision.consecutiveFailures == c.consecutiveFailures && decision.selectedAt == now
            && out.controller == Controller(routeId, 0))
      && (out.decision.None? ==> out.controller == c)
  {
    hide Available, Health, Ids;
    HealthMeaning(policy, observations, now, routeId);
  }

  /** A delivery result counts exactly for the active route: a success clears the failures, a
      failure adds one up to the threshold. */
  lemma RecordMeaning(c: Controller, policy: FailoverPolicy, routeId: string, succeeded: bool)
    ensures var after := RecordOutcome(c, policy, routeId, succeeded);
      && (after.Some? <==> routeId != "" && routeId == c.activeRouteId)
      && (after.Some? ==>
            && after.value.activeRouteId == c.activeRouteId
            && (succeeded ==> after.value.consecutiveFailures == 0)
            && (!succeeded && c.consecutiveFailures < policy.failureThreshold ==>
                  after.value.consecutiveFailures == c.consecutiveFailures + 1)
            && (!succeeded && c.consecutiveFailures >= policy.failureThreshold ==> after.value == c))
  {
  }

  /** The loop of `Select` over the routes in priority order. */
  method ComputeFirstOther(routes: seq<Route>, previous: string, health: set<string>) returns (r: Option<Route>)
    ensures r == FirstOther(routes, previous, health)
  {
    var next := 0;
    while next < |routes|
      invariant 0 <= next <= |routes|
      invariant FirstOther(routes, previous, health) == FirstOther(routes[next..], previous, health)
    {
      if routes[next].id != previous && routes[next].id in health {
        return Some(routes[next]);
      }
      next := next + 1;
    }
    return None;
  }

  lemma {:induction false} FirstOtherAgrees(routes: seq<Route>, previous: string, a: set<string>, b: set<string>)
    requires forall r :: r in routes ==> (r.id in a <==> r.id in b)
    ensures FirstOther(routes, previous, a) == FirstOther(routes, previous, b)
  {
    if routes == [] {
    } else {
      FirstOtherAgrees(routes[1..], previous, a, b);
    }
  }

  lemma HealthAgrees(policy: FailoverPolicy, observations: seq<Observation>, now: int, available: set<string>)
    requires forall id :: id in available <==> Available(observations, policy.observationMaxAge, now, id)
    ensures forall id :: id in Ids(policy.routes) ==> (id in available <==> id in Health(policy, observations, now))
    ensures forall r :: r in policy.routes ==> (r.id in available <==> r.id in Health(policy, observations, now))
  {
    hide Available;
  }

  lemma NoBlankIds(policy: FailoverPolicy)
    requires ValidFailoverPolicy(policy)
    ensures "" !in Ids(SortRoutes(policy.routes))
  {
    SortRoutesSorts(policy.routes);
    forall r | r in policy.routes
      ensures r.id != ""
    {
      var i :| 0 <= i < |policy.routes| && policy.routes[i] == r;
      assert ValidRoute(policy.routes[i], policy.endpointId);
    }
  }

  lemma {:induction false} FirstOtherApproved(routes: seq<Route>, previous: string, health: set<string>)
    ensures var r := FirstOther(routes, previous, health); r.Some? ==> r.value.id in Ids(routes)
  {
    if routes == [] {
    } else {
      FirstOtherApproved(routes[1..], previous, health);
      assert routes == [routes[0]] + routes[1..];
      assert Ids(routes) == {routes[0].id} + Ids(routes[1..]);
    }
  }

  /** `FailoverController`; its mutex makes every method one step. */
  class FailoverController {
    const policy: FailoverPolicy
    var activeRouteId: string
    var consecutiveFailures: int

    ghost function State(): Controller
      reads this
    {
      Controller(activeRouteId, consecutiveFailures)
    }

    ghost predicate Ok()
      reads this
    {
      ByPriority(policy.routes) && "" !in Ids(policy.routes) && (activeRouteId == "" || activeRouteId in Ids(policy.routes))
    }

    /** The routes are copied and sorted. */
    constructor (policy: FailoverPolicy)
      requires ValidFailoverPolicy(policy)
      ensures Ok() && State() == Controller("", 0)
      ensures this.policy == policy.(routes := SortRoutes(policy.routes))
    {
      SortRoutesSorts(policy.routes);
      NoBlankIds(policy);
      this.policy := policy.(routes := SortRoutes(policy.routes));
      activeRouteId, consecutiveFailures := "", 0;
    }

    method Select(observations: seq<Observation>, now: int) returns (decision: Option<RouteDecision>)
      requires Ok()
      modifies this
      ensures Ok()
      ensures Outcome(State(), decision) == SelectOutcome(old(State()), policy, Health(policy, observations, now), now)
    {
      hide Available, FirstOther;
      var health := AvailableRouteIds(observations, policy.observationMaxAge, now);
      HealthAgrees(policy, observations, now, health);
      if activeRouteId != "" && consecutiveFailures < policy.failureThreshold && activeRouteId in health {
        var active := Find(policy.routes, activeRouteId);
        return Some(RouteDecision(active.value, activeRouteId, ActiveRouteHealthy, consecutiveFailures, now));
      }
      var previous, failures := activeRouteId, consecutiveFailures;
      var route := ComputeFirstOther(policy.routes, previous, health);
      FirstOtherAgrees(policy.routes, previous, health, Health(policy, observations, now));
      if route.None? {
        return None;
      }
      FirstOtherApproved(policy.routes, previous, health);
      activeRouteId, consecutiveFailures := route.value.id, 0;
      var reason := if previous != "" then ApprovedFailover else ApprovedInitialRoute;
      return Some(RouteDecision(route.value, previous, reason, failures, now));
    }

    method RecordDelivery(routeId: string, succeeded: bool) returns (ok: bool)
      requires Ok()
      modifies this
      ensures Ok()
      ensures var after := RecordOutcome(old(State()), policy, routeId, succeeded);
        ok == after.Some? && State() == if ok then after.value else old(State())
    {
      if routeId == "" || routeId != activeRouteId {
        return false;
      }
      if succeeded {
        consecutiveFailures := 0;
        return true;
      }
      if consecutiveFailures < policy.failureThreshold {
        consecutiveFailures := consecutiveFailures + 1;
      }
      return true;
    }

    method SelectApprovedRoute(routeId: string, observations: seq<Observation>, now: int)
      returns (decision: Option<RouteDecision>)
      requires Ok()
      modifies this
      ensures Ok()
      ensures Outcome(State(), decision) ==
        ApproveOutcome(old(State()), policy, routeId, Health(policy, observations, now), now)
      ensures decision.Some? <==>
        routeId in Ids(policy.routes) && Available(observations, policy.observationMaxAge, now, routeId)
      ensures State() == if decision.Some? then Controller(routeId, 0) else old(State())
    {
      hide Available, Ids;
      var health := AvailableRouteIds(observations, policy.observationMaxAge, now);
      HealthAgrees(policy, observations, now, health);
      var route := Find(policy.routes, routeId);
      if routeId !in health || route.None? {
        return None;
      }
      decision := Some(RouteDecision(route.value, activeRouteId, ServerSelectedApprovedRoute, consecutiveFailures, now));
      activeRouteId, consecutiveFailures := routeId, 0;
    }
  }

  // ----- Every run of the controller

  datatype Event =
    | Selected(observations: seq<Observation>, at: int)
    | Recorded(routeId: string, succeeded: bool)
    | Approved(id: string, seen: seq<Observation>, when: int)

  function Step(c: Controller, policy: FailoverPolicy, e: Event): Controller {
    match e
    case Selected(observations, now) => SelectOutcome(c, policy, Health(policy, observations, now), now).controller
    case Recorded(routeId, succeeded) =>
      var after := RecordOutcome(c, policy, routeId, succeeded);
      if after.Some? then after.value else c
    case Approved(routeId, observations, now) =>
      ApproveOutcome(c, policy, routeId, Health(policy, observations, now), now).controller
  }

  function Run(policy: FailoverPolicy, events: seq<Event>): Controller {
    if events == [] then Controller("", 0)
    else Step(Run(policy, events[..|events| - 1]), policy, events[|events| - 1])
  }

  /** A selection that leaves the active route, or the server's choice of a route. */
  predicate SelectsAnew(c: Controller, policy: FailoverPolicy, e: Event) {
    match e
    case Selected(observations, now) =>
      var health := Health(policy, observations, now);
      && !(c.activeRouteId != "" && c.consecutiveFailures < policy.failureThreshold && c.activeRouteId in health)
      && exists r :: r in policy.routes && r.id != c.activeRouteId && r.id in health
    case Recorded(_, _) => false
    case Approved(routeId, observations, now) =>
      routeId in Ids(policy.routes) && Available(observations, policy.observationMaxAge, now, routeId)
  }

  /** Failed deliveries of the active route since its last success or the last selection. */
  function Failures(policy: FailoverPolicy, events: seq<Event>): nat {
    if events == [] then 0
    else
      var n := |events| - 1;
      var c, e := Run(policy, events[..n]), events[n];
      if SelectsAnew(c, policy, e) then 0
      else if e.Recorded? && e.routeId == c.activeRouteId && e.routeId != "" then
        if e.succeeded then 0 else Failures(policy, events[..n]) + 1
      else Failures(policy, events[..n])
  }

  lemma {:induction false} FirstOtherExists(routes: seq<Route>, previous: string, health: set<string>)
    ensures FirstOther(routes, previous, health).Some? <==> exists r :: r in routes && r.id != previous && r.id in health
    ensures var r := FirstOther(routes, previous, health);
      r.Some? ==> r.value in routes && r.value.id != previous && r.value.id in health
  {
    if routes == [] {
    } else {
      assert routes == [routes[0]] + routes[1..];
      FirstOtherExists(routes[1..], previous, health);
    }
  }

  /** One event, in terms of what was observed. */
  lemma StepMeaning(c: Controller, policy: FailoverPolicy, e: Event)
    ensures SelectsAnew(c, policy, e) ==> Step(c, policy, e).consecutiveFailures == 0
    ensures !SelectsAnew(c, policy, e) && !e.Recorded? ==> Step(c, policy, e) == c
    ensures !SelectsAnew(c, policy, e) ==> Step(c, policy, e).activeRouteId == c.activeRouteId
    ensures SelectsAnew(c, policy, e) ==>
      var id := Step(c, policy, e).activeRouteId;
      && id in Ids(policy.routes)
      && (e.Selected? ==> Available(e.observations, policy.observationMaxAge, e.at, id))
      && (e.Approved? ==> id == e.id && Available(e.seen, policy.observationMaxAge, e.when, id))
  {
    hide Available, Health, Ids;
    match e
    case Selected(observations, now) =>
      var health := Health(policy, observations, now);
      FirstOtherExists(policy.routes, c.activeRouteId, health);
      var other := FirstOther(policy.routes, c.activeRouteId, health);
      if other.Some? {
        HealthMeaning(policy, observations, now, other.value.id);
      }
    case Recorded(_, _) =>
    case Approved(routeId, observations, now) => ApproveMeaning(c, policy, routeId, observations, now);
  }

  lemma RecordedStays(c: Controller, policy: FailoverPolicy, e: Event)
    ensures e.Recorded? ==> !SelectsAnew(c, policy, e)
  {
  }

  /** In every run, the active route changes only to an approved route of which the event that
      changed it brought exactly one observation, healthy and fresh at that time. */
  lemma ChangesOnlyToAvailable(policy: FailoverPolicy, events: seq<Event>, n: nat)
    requires n < |events|
    ensures var before, after, e := Run(policy, events[..n]), Run(policy, events[..n + 1]), events[n];
      after.activeRouteId != before.activeRouteId ==>
        && after.activeRouteId in Ids(policy.routes)
        && (e.Selected? || (e.Approved? && e.id == after.activeRouteId))
        && (e.Selected? ==> SeenHealthy(e.observations, policy.observationMaxAge, e.at, after.activeRouteId))
        && (e.Approved? ==> SeenHealthy(e.seen, policy.observationMaxAge, e.when, after.activeRouteId))
  {
    hide Step, SelectsAnew, Ids, Available;
    var before, after, e := Run(policy, events[..n]), Run(policy, events[..n + 1]), events[n];
    assert events[..n + 1][..n] == events[..n];
    StepMeaning(before, policy, e);
    RecordedStays(before, policy, e);
    match e
    case Selected(observations, now) =>
      AvailableMeaning(observations, policy.observationMaxAge, now, after.activeRouteId);
    case Recorded(_, _) =>
    case Approved(_, observations, now) =>
      AvailableMeaning(observations, policy.observationMaxAge, now, after.activeRouteId);
  }

  /** In every run the active route is none or an approved one, and the failure counter is
      the number of failures since the last success or selection, up to the threshold. */
  lemma {:induction false} RunMeaning(policy: FailoverPolicy, events: seq<Event>)
    requires policy.failureThreshold >= 1
    ensures var c := Run(policy, events);
      && (c.activeRouteId == "" || c.activeRouteId in Ids(policy.routes))
      && c.consecutiveFailures ==
           if Failures(policy, events) < policy.failureThreshold then Failures(policy, events) else policy.failureThreshold
  {
    hide Health, Ids, Available, SelectOutcome, ApproveOutcome, SelectsAnew;
    if events == [] {
    } else {
      var n := |events| - 1;
      RunMeaning(policy, events[..n]);
      var c, e := Run(policy, events[..n]), events[n];
      StepMeaning(c, policy, e);
      RecordedStays(c, policy, e);
    }
  }
}
