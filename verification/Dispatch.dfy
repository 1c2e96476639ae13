/**
 The dispatch loop: it runs the matching routes of a snapshot until one stops the event.  Rules see the event's context
 as the handlers before them left it, so the context's state is threaded through.  What the loop does is said position
 by position, and from each route that ran to the next.
 */
module Dispatch {
  import opened Common
  import opened Router
  import opened Rules

  /** What the error returned by a handler chain is, by `errors.Is`. */
  datatype HandlerError = NoError | Error(isPass: bool, isStop: bool) {
    predicate Passes() { Error? && isPass }
    predicate Reported() { Error? && !isPass && !isStop }
  }

  /**
   What running a handler chain does: its error, Stop calls of it and of the error handlers, and the state it leaves.
   */
  datatype Handled<S> = Handled(error: HandlerError, handlerStops: bool, errorHandlerStops: bool, next: S) {
    /**
     Stops the event: by a stop error, or by a Stop call of the handler or of an error handler; never when it passes.
     */
    predicate Stops() {
      !error.Passes() && ((error.Error? && error.isStop) || handlerStops || (error.Reported() && errorHandlerStops))
    }
  }

  /** A route as events meet it: whether it has a handler, what its rules give in a state, and what its handler does. */
  datatype Behaviour<!S> = Behaviour(hasHandler: bool, rules: S -> seq<RuleResult>, handle: (S, Match) -> Handled<S>) {
    predicate Eligible(s: S) { hasHandler && forall i :: 0 <= i < |rules(s)| ==> !rules(s)[i].Fails? }
    function Result(s: S): Handled<S> { handle(s, Combined(Hits(rules(s)))) }
    predicate Stops(s: S) { Eligible(s) && Result(s).Stops() }
    function Next(s: S): S { if Eligible(s) then Result(s).next else s }
  }

  class Context {
    var stopped: bool
    var route: Option<nat>

    constructor ()
      ensures !stopped && route == None
    {
      stopped := false;
      route := None;
    }
  }

  /** The state that the route at position n meets, when the one at position i meets s and nothing stops in between. */
  function StateAt<S>(routes: seq<Behaviour<S>>, s: S, i: nat, n: nat): S
    requires i <= n <= |routes|
    decreases n - i
  {
    if i == n then s else StateAt(routes, routes[i].Next(s), i + 1, n)
  }

  /**
   What the loop does from position i on in state s: the positions that run and that are reported, and the last state.
   */
  datatype Trace<S> = Trace(ran: seq<nat>, reported: seq<nat>, end: S)

  function Before<S>(ran: seq<nat>, reported: seq<nat>, rest: Trace<S>): Trace<S> {
    Trace(ran + rest.ran, reported + rest.reported, rest.end)
  }

  function TraceFrom<S>(routes: seq<Behaviour<S>>, s: S, i: nat): Trace<S>
    requires i <= |routes|
    decreases |routes| - i
  {
    if i == |routes| then Trace([], [], s)
    else
      var route := routes[i];
      var ran := if route.Eligible(s) then [i] else [];
      var reported := if route.Eligible(s) && route.Result(s).error.Reported() then [i] else [];
      if route.Stops(s) then Trace(ran, reported, route.Next(s))
      else Before(ran, reported, TraceFrom(routes, route.Next(s), i + 1))
  }

  lemma BeforeTwice<S>(ran: seq<nat>, reported: seq<nat>, ran': seq<nat>, reported': seq<nat>, rest: Trace<S>)
    ensures Before(ran, reported, Before(ran', reported', rest)) == Before(ran + ran', reported + reported', rest)
  {
    assert ran + (ran' + rest.ran) == (ran + ran') + rest.ran;
    assert reported + (reported' + rest.reported) == (reported + reported') + rest.reported;
  }

  /** One round of the loop, on what it has done so far. */
  lemma {:induction false} Round<S>(routes: seq<Behaviour<S>>, s: S, i: nat, ran: seq<nat>, reported: seq<nat>)
    requires i < |routes|
    ensures
      var route := routes[i];
      var ran' := if route.Eligible(s) then ran + [i] else ran;
      var reported' := if route.Eligible(s) && route.Result(s).error.Reported() then reported + [i] else reported;
      Before(ran, reported, TraceFrom(routes, s, i)) ==
        if route.Stops(s) then Trace(ran', reported', route.Next(s))
        else Before(ran', reported', TraceFrom(routes, route.Next(s), i + 1))
  {
    var route := routes[i];
    var ran' := if route.Eligible(s) then [i] else [];
    var reported' := if route.Eligible(s) && route.Result(s).error.Reported() then [i] else [];
    BeforeTwice(ran, reported, ran', reported', TraceFrom(routes, route.Next(s), i + 1));
    assert ran + [] == ran && reported + [] == reported;
  }

  lemma NothingAfter<S>(routes: seq<Behaviour<S>>, s: S, ran: seq<nat>, reported: seq<nat>)
    ensures Before(ran, reported, TraceFrom(routes, s, |routes|)) == Trace(ran, reported, s)
  {
  }

  method Dispatch<S>(c: Context, routes: seq<Behaviour<S>>, start: S)
    returns (ran: seq<nat>, reported: seq<nat>, s: S)
    modifies c
    ensures Trace(ran, reported, s) == TraceFrom(routes, start, 0)
  {
    hide TraceFrom;
    ran, reported, s := [], [], start;
    for i := 0 to |routes|
      invariant Before(ran, reported, TraceFrom(routes, s, i)) == TraceFrom(routes, start, 0)
    {
      Round(routes, s, i, ran, reported);
      if !routes[i].hasHandler {
        continue;
      }
      c.route := None;
      var hit, matches := MatchRules(routes[i].rules(s));
      if !matches {
        continue;
      }
      c.route := Some(i);
      c.stopped := false;
      var result := routes[i].handle(s, hit);
      assert result == routes[i].Result(s);
      ran := ran + [i];
      s := result.next;
      if result.handlerStops {
        c.stopped := true;
      }
      if result.error.Passes() {
        continue;
      }
      if result.error.Reported() {
        reported := reported + [i];
        if result.errorHandlerStops {
          c.stopped := true;
        }
      }
      if c.stopped || (result.error.Error? && result.error.isStop) {
        return;
      }
    }
    NothingAfter(routes, s, ran, reported);
  }

  // ---------------------------------------------------------------- which routes run, said outright

  ghost predicate NothingStoppedBefore<S>(routes: seq<Behaviour<S>>, s: S, i: nat, n: nat)
    requires i <= n <= |routes|
  {
    forall m :: i <= m < n ==> !routes[m].Stops(StateAt(routes, s, i, m))
  }

  lemma InTrace<S>(routes: seq<Behaviour<S>>, s: S, i: nat, n: nat)
    requires i < |routes|
    ensures
      var route := routes[i];
      var trace, rest := TraceFrom(routes, s, i), TraceFrom(routes, route.Next(s), i + 1);
      && (n in trace.ran <==> (n == i && route.Eligible(s)) || (!route.Stops(s) && n in rest.ran))
      && (n in trace.reported <==>
            || (n == i && route.Eligible(s) && route.Result(s).error.Reported())
            || (!route.Stops(s) && n in rest.reported))
  {
  }

  lemma {:induction false} RunsFromIs<S>(routes: seq<Behaviour<S>>, s: S, i: nat, n: nat)
    requires i <= n < |routes|
    ensures
      var met := StateAt(routes, s, i, n);
      var trace := TraceFrom(routes, s, i);
      && (n in trace.ran <==> routes[n].Eligible(met) && NothingStoppedBefore(routes, s, i, n))
      && (n in trace.reported <==> n in trace.ran && routes[n].Result(met).error.Reported())
    decreases |routes| - i
  {
    var next := routes[i].Next(s);
    InTrace(routes, s, i, n);
    RunsAreLater(routes, next, i + 1);
    hide TraceFrom;
    if i < n {
      RunsFromIs(routes, next, i + 1, n);
      forall m | i < m <= n ensures StateAt(routes, s, i, m) == StateAt(routes, next, i + 1, m) {}
      if NothingStoppedBefore(routes, s, i, n) {
        assert !routes[i].Stops(StateAt(routes, s, i, i));
        assert forall m :: i < m < n ==> !routes[m].Stops(StateAt(routes, s, i, m));
      }
    }
  }

  lemma {:induction false} RunsAreLater<S>(routes: seq<Behaviour<S>>, s: S, i: nat)
    requires i <= |routes|
    ensures
      var trace := TraceFrom(routes, s, i);
      (forall n :: n in trace.ran ==> i <= n < |routes|) && (forall n :: n in trace.reported ==> i <= n < |routes|)
    decreases |routes| - i
  {
    if i < |routes| {
      var trace := TraceFrom(routes, s, i);
      RunsAreLater(routes, routes[i].Next(s), i + 1);
      forall n: nat ensures n in trace.ran ==> i <= n < |routes| ensures n in trace.reported ==> i <= n < |routes| {
        InTrace(routes, s, i, n);
      }
    }
  }

  predicate Ascending(ran: seq<nat>) { forall a, b :: 0 <= a < b < |ran| ==> ran[a] < ran[b] }

  lemma {:induction false} RunsAscend<S>(routes: seq<Behaviour<S>>, s: S, i: nat)
    requires i <= |routes|
    ensures Ascending(TraceFrom(routes, s, i).ran)
    decreases |routes| - i
  {
    if i < |routes| {
      var next := routes[i].Next(s);
      RunsAscend(routes, next, i + 1);
      RunsAreLater(routes, next, i + 1);
      var rest := TraceFrom(routes, next, i + 1).ran;
      forall k | 0 <= k < |rest| ensures i < rest[k] {
        assert rest[k] in TraceFrom(routes, next, i + 1).ran;
      }
      FirstAscends(i, rest);
    }
  }

  lemma FirstAscends(i: nat, rest: seq<nat>)
    requires Ascending(rest) && forall k :: 0 <= k < |rest| ==> i < rest[k]
    ensures Ascending([i] + rest) && [] + rest == rest
  {
  }

  /**
   A route of a snapshot runs if and only if it has a handler, all its rules match in the state that the handlers before
   it left, and none of the routes before it stopped the event; one that passes never stops it.  The errors reported are
   exactly those of routes that ran that are neither a pass nor a stop.
   */
  lemma RunsIffNothingStoppedBefore<S>(routes: seq<Behaviour<S>>, s: S, n: nat)
    requires n < |routes|
    ensures
      var met := StateAt(routes, s, 0, n);
      var trace := TraceFrom(routes, s, 0);
      && (n in trace.ran <==>
            routes[n].Eligible(met) && forall m :: 0 <= m < n ==> !routes[m].Stops(StateAt(routes, s, 0, m)))
      && (n in trace.reported <==> n in trace.ran && routes[n].Result(met).error.Reported())
      && Ascending(trace.ran)
  {
    RunsFromIs(routes, s, 0, n);
    RunsAscend(routes, s, 0);
  }

  // ---------------------------------------------------------------- from one route to the next

  /** The loop goes on after a handler chain: it passed, or nothing it returned or called asks for a stop. */
  predicate GoesOn<S>(result: Handled<S>) {
    match result.error
    case NoError => !result.handlerStops
    case Error(isPass, isStop) => isPass || (!isStop && !result.handlerStops && !result.errorHandlerStops)
  }

  lemma StateAtStep<S>(routes: seq<Behaviour<S>>, s: S, i: nat, n: nat)
    requires i <= n < |routes|
    ensures StateAt(routes, s, i, n + 1) == routes[n].Next(StateAt(routes, s, i, n))
    decreases n - i
  {
    if i < n {
      StateAtStep(routes, routes[i].Next(s), i + 1, n);
    }
  }

  /**
   Behind a route that ran none runs unless the loop goes on; and if it does, the next one runs exactly when it has a
   handler and its rules all match in the state that this one left.
   */
  lemma NextRouteRunsIff<S>(routes: seq<Behaviour<S>>, start: S, n: nat, m: nat)
    requires n < m < |routes| && n in TraceFrom(routes, start, 0).ran
    ensures
      var ran, met := TraceFrom(routes, start, 0).ran, StateAt(routes, start, 0, n);
      var result := routes[n].handle(met, Combined(Hits(routes[n].rules(met))));
      && (!GoesOn(result) ==> m !in ran)
      && (GoesOn(result) && m == n + 1 ==>
            (m in ran <==> && routes[m].hasHandler
                           && forall i :: 0 <= i < |routes[m].rules(result.next)| ==>
                                !routes[m].rules(result.next)[i].Fails?))
  {
    hide TraceFrom, StateAt;
    RunsFromIs(routes, start, 0, n);
    RunsFromIs(routes, start, 0, m);
    StateAtStep(routes, start, 0, n);
    var met := StateAt(routes, start, 0, n);
    assert routes[n].Stops(met) <==> !GoesOn(routes[n].Result(met));
    assert m == n + 1 && !routes[n].Stops(met) ==> NothingStoppedBefore(routes, start, 0, m);
  }

  /** A route that is passed over leaves the state as it is and stops nothing. */
  lemma PassedOver<S>(routes: seq<Behaviour<S>>, start: S, n: nat, m: nat)
    requires n < m < |routes| && n !in TraceFrom(routes, start, 0).ran && m in TraceFrom(routes, start, 0).ran
    ensures
      var met := StateAt(routes, start, 0, n);
      && (!routes[n].hasHandler || exists i :: 0 <= i < |routes[n].rules(met)| && routes[n].rules(met)[i].Fails?)
      && StateAt(routes, start, 0, n + 1) == met
  {
    hide TraceFrom, StateAt;
    RunsFromIs(routes, start, 0, n);
    RunsFromIs(routes, start, 0, m);
    StateAtStep(routes, start, 0, n);
  }

  // ---------------------------------------------------------------- one event against the table

  lemma PrecedesIsPosition(snapshot: seq<Route>, m: nat, n: nat)
    requires Sorted(snapshot) && m < |snapshot| && n < |snapshot|
    ensures Precedes(snapshot[m], snapshot[n]) <==> m < n
  {
  }

  /** How the routes of a snapshot meet events. */
  function Meet<S>(meets: Route -> Behaviour<S>, snapshot: seq<Route>): (behaviours: seq<Behaviour<S>>)
    ensures |behaviours| == |snapshot|
  {
    seq(|snapshot|, i requires 0 <= i < |snapshot| => meets(snapshot[i]))
  }

  /** The state that a route of the snapshot meets, if the event gets that far. */
  ghost function Met<S>(meets: Route -> Behaviour<S>, snapshot: seq<Route>, start: S, route: Route): S
    requires route in snapshot
  {
    var n :| 0 <= n < |snapshot| && snapshot[n] == route;
    StateAt(Meet(meets, snapshot), start, 0, n)
  }

  lemma MetAt<S>(meets: Route -> Behaviour<S>, snapshot: seq<Route>, start: S, n: nat)
    requires Sorted(snapshot) && n < |snapshot|
    ensures Met(meets, snapshot, start, snapshot[n]) == StateAt(Meet(meets, snapshot), start, 0, n)
  {
    forall m | 0 <= m < |snapshot| && snapshot[m] == snapshot[n] ensures m == n {
      PrecedesIsPosition(snapshot, m, n);
      PrecedesIsPosition(snapshot, n, m);
    }
  }

  /** No route that comes before this one stops the event, each in the state that it meets. */
  ghost predicate Reaches<S>(meets: Route -> Behaviour<S>, snapshot: seq<Route>, start: S, route: Route)
    reads snapshot, route
  {
    forall other :: other in snapshot && Precedes(other, route) ==>
      !meets(other).Stops(Met(meets, snapshot, start, other))
  }

  lemma ReachesIsPosition<S>(meets: Route -> Behaviour<S>, snapshot: seq<Route>, start: S, n: nat)
    requires Sorted(snapshot) && n < |snapshot|
    ensures Reaches(meets, snapshot, start, snapshot[n]) <==>
              NothingStoppedBefore(Meet(meets, snapshot), start, 0, n)
  {
    forall m | 0 <= m < |snapshot|
      ensures Precedes(snapshot[m], snapshot[n]) <==> m < n
      ensures Met(meets, snapshot, start, snapshot[m]) == StateAt(Meet(meets, snapshot), start, 0, m)
    {
      PrecedesIsPosition(snapshot, m, n);
      MetAt(meets, snapshot, start, m);
    }
    hide Met, StateAt, Precedes;
    if Reaches(meets, snapshot, start, snapshot[n]) {
      forall m | 0 <= m < n
        ensures !Meet(meets, snapshot)[m].Stops(StateAt(Meet(meets, snapshot), start, 0, m))
      {
        assert snapshot[m] in snapshot;
      }
    }
  }

  /** A snapshot restricted to the positions that ran. */
  ghost predicate RanAt(snapshot: seq<Route>, positions: seq<nat>, ran: seq<Route>) {
    && |ran| == |positions|
    && forall k :: 0 <= k < |positions| ==> positions[k] < |snapshot| && ran[k] == snapshot[positions[k]]
  }

  lemma RanIsPosition(snapshot: seq<Route>, positions: seq<nat>, ran: seq<Route>, n: nat)
    requires Sorted(snapshot) && n < |snapshot| && RanAt(snapshot, positions, ran)
    ensures snapshot[n] in ran <==> n in positions
  {
    if snapshot[n] in ran {
      var k :| 0 <= k < |ran| && ran[k] == snapshot[n];
      PrecedesIsPosition(snapshot, positions[k], n);
      PrecedesIsPosition(snapshot, n, positions[k]);
    }
    if n in positions {
      var k :| 0 <= k < |positions| && positions[k] == n;
      assert ran[k] == snapshot[n];
    }
  }

  lemma RanIsSorted(snapshot: seq<Route>, positions: seq<nat>, ran: seq<Route>)
    requires Sorted(snapshot) && RanAt(snapshot, positions, ran)
    requires Ascending(positions)
    ensures Sorted(ran)
  {
    forall a, b | 0 <= a < b < |ran| ensures Precedes(ran[a], ran[b]) {
      assert positions[a] < positions[b];
    }
  }

  lemma RouteRanIff<S>(meets: Route -> Behaviour<S>, snapshot: seq<Route>, start: S, ran: seq<Route>, route: Route)
    requires Sorted(snapshot) && RanAt(snapshot, TraceFrom(Meet(meets, snapshot), start, 0).ran, ran)
    ensures route in ran ==> route in snapshot
    ensures route in snapshot ==>
              (route in ran <==> meets(route).Eligible(Met(meets, snapshot, start, route))
                                 && Reaches(meets, snapshot, start, route))
  {
    if route in snapshot {
      var n :| 0 <= n < |snapshot| && snapshot[n] == route;
      var behaviours := Meet(meets, snapshot);
      RunsFromIs(behaviours, start, 0, n);
      MetAt(meets, snapshot, start, n);
      ReachesIsPosition(meets, snapshot, start, n);
      RanIsPosition(snapshot, TraceFrom(behaviours, start, 0).ran, ran, n);
    }
  }

  /**
   Whatever mix of registrations, priority changes and snapshots came before, and whatever handlers do to the context: a
   route runs exactly when it is eligible in the state that it meets and no route before it, by priority and then
   registration, stops the event in the state that that one meets; and routes run in that order.
   */
  method DispatchEvent<S>(c: Context, table: Table, meets: Route -> Behaviour<S>, start: S)
    returns (ran: seq<Route>, end: S, ghost snapshot: seq<Route>)
    requires table.Valid()
    modifies c, table`sorted, table`dirty
    ensures table.Valid() && Sorted(snapshot) && SameRoutes(snapshot, table.routes)
    ensures InPriorityOrder(ran, table.routes)
    ensures Sorted(ran) && end == TraceFrom(Meet(meets, snapshot), start, 0).end
    ensures forall route :: route in ran ==> route in table.routes
    ensures forall route :: route in table.routes ==>
              && route in snapshot
              && (route in ran <==> meets(route).Eligible(Met(meets, snapshot, start, route))
                                    && Reaches(meets, snapshot, start, route))
  {
    hide Precedes, InPriorityOrder, Reaches, Met, NothingStoppedBefore, TraceFrom;
    var routes := table.Snapshot();
    snapshot := routes;
    var behaviours := Meet(meets, routes);
    var positions, _, s := Dispatch(c, behaviours, start);
    end := s;
    RunsAreLater(behaviours, start, 0);
    RunsAscend(behaviours, start, 0);
    ran := [];
    for k := 0 to |positions|
      invariant RanAt(routes, positions[..k], ran)
    {
      assert positions[k] in positions;
      ran := ran + [routes[positions[k]]];
    }
    assert positions[..|positions|] == positions;
    RanIsSorted(routes, positions, ran);
    forall route: Route ensures route in routes <==> route in table.routes {
      assert route in multiset(routes) <==> route in multiset(table.routes);
    }
    forall route: Route
      ensures route in ran ==> route in routes
      ensures route in routes ==>
                (route in ran <==> meets(route).Eligible(Met(meets, routes, start, route))
                                   && Reaches(meets, routes, start, route))
    {
      RouteRanIff(meets, routes, start, ran, route);
    }
    SortedMeans(table.routes, ran);
  }
}
