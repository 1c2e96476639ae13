/** The router's table of routes and the cache of their sorted order behind a dirty flag. */
module Router {

  class Route {
    var priority: int
    const order: nat

    constructor (order: nat)
      ensures this.order == order && priority == 0
    {
      this.order := order;
      priority := 0;
    }
  }

  /** Higher priority first; among equals, earlier registration first. */
  predicate Precedes(a: Route, b: Route)
    reads a, b
  {
    if a.priority == b.priority then a.order < b.order else a.priority > b.priority
  }

  predicate Sorted(routes: seq<Route>)
    reads routes
  {
    forall i, j :: 0 <= i < j < |routes| ==> Precedes(routes[i], routes[j])
  }

  predicate DistinctOrders(routes: seq<Route>) {
    forall i, j :: 0 <= i < j < |routes| ==> routes[i].order < routes[j].order
  }

  ghost predicate SameRoutes(a: seq<Route>, b: seq<Route>) {
    multiset(a) == multiset(b)
  }

  /** The position at which a route was registered. */
  ghost predicate RegisteredAt(routes: seq<Route>, route: Route, i: nat) { i < |routes| && routes[i] == route }

  /** A list in which priorities never rise and, where two are equal, the route registered earlier comes earlier. */
  ghost predicate InPriorityOrder(list: seq<Route>, routes: seq<Route>)
    reads list
  {
    forall i, j :: 0 <= i < j < |list| ==>
      && list[i].priority >= list[j].priority
      && (list[i].priority == list[j].priority ==>
            forall a: nat, b: nat :: RegisteredAt(routes, list[i], a) && RegisteredAt(routes, list[j], b) ==> a < b)
  }

  /** Sorting lists of registered routes is putting them into priority order. */
  lemma SortedMeans(routes: seq<Route>, list: seq<Route>)
    requires DistinctOrders(routes) && forall route :: route in list ==> route in routes
    ensures Sorted(list) <==> InPriorityOrder(list, routes)
  {
    forall i, j | 0 <= i < j < |list|
      ensures Precedes(list[i], list[j]) <==>
                && list[i].priority >= list[j].priority
                && (list[i].priority == list[j].priority ==>
                      forall a: nat, b: nat ::
                        RegisteredAt(routes, list[i], a) && RegisteredAt(routes, list[j], b) ==> a < b)
    {
      assert list[i] in routes && list[j] in routes;
      var a: nat :| a < |routes| && routes[a] == list[i];
      var b: nat :| b < |routes| && routes[b] == list[j];
      assert RegisteredAt(routes, list[i], a) && RegisteredAt(routes, list[j], b);
    }
  }

  lemma SameRoutesAreRegistered(list: seq<Route>, routes: seq<Route>)
    requires SameRoutes(list, routes)
    ensures forall route :: route in list ==> route in routes
  {
    forall route | route in list ensures route in routes {
      assert route in multiset(list);
      assert route in multiset(routes);
    }
  }

  function Insert(routes: seq<Route>, r: Route): seq<Route>
    reads routes, r
  {
    if routes == [] || !Precedes(routes[0], r) then [r] + routes else [routes[0]] + Insert(routes[1..], r)
  }

  lemma {:induction false} InsertAdds(routes: seq<Route>, r: Route)
    ensures multiset(Insert(routes, r)) == multiset(routes) + multiset{r}
  {
    hide Precedes;
    if routes == [] || !Precedes(routes[0], r) {
      assert multiset([r] + routes) == multiset{r} + multiset(routes);
    } else {
      InsertAdds(routes[1..], r);
      assert routes == [routes[0]] + routes[1..];
    }
  }

  lemma {:induction false} InsertSorts(routes: seq<Route>, r: Route)
    requires Sorted(routes) && forall i :: 0 <= i < |routes| ==> routes[i].order != r.order
    ensures Sorted(Insert(routes, r)) && multiset(Insert(routes, r)) == multiset(routes) + multiset{r}
  {
    InsertAdds(routes, r);
    if routes != [] && Precedes(routes[0], r) {
      var rest := Insert(routes[1..], r);
      InsertSorts(routes[1..], r);
      hide Precedes;
      forall j | 0 <= j < |rest| ensures Precedes(routes[0], rest[j]) {
        assert rest[j] in multiset(rest);
        assert rest[j] == r || rest[j] in routes[1..];
      }
    }
  }

  /** The library's stable sort. */
  method SortRoutes(routes: seq<Route>) returns (sorted: seq<Route>)
    requires DistinctOrders(routes)
    ensures Sorted(sorted) && SameRoutes(sorted, routes)
  {
    hide Insert, Precedes;
    sorted := [];
    for i := 0 to |routes|
      invariant Sorted(sorted) && multiset(sorted) == multiset(routes[..i])
    {
      forall j | 0 <= j < |sorted| ensures sorted[j].order != routes[i].order {
        assert sorted[j] in multiset(routes[..i]);
        var n :| 0 <= n < i && routes[n] == sorted[j];
      }
      InsertSorts(sorted, routes[i]);
      sorted := Insert(sorted, routes[i]);
      assert routes[..i + 1] == routes[..i] + [routes[i]];
    }
    assert routes[..|routes|] == routes;
  }

  class Table {
    var routes: seq<Route>
    var sorted: seq<Route>
    var dirty: bool
    var nextOrder: nat

    constructor ()
      ensures Valid() && routes == []
    {
      routes := [];
      sorted := [];
      dirty := false;
      nextOrder := 0;
    }

    /** Orders follow registration, and a cache that is not dirty is a sorted list of the present routes. */
    ghost predicate Valid()
      reads this, routes, sorted
    {
      && DistinctOrders(routes)
      && (forall i :: 0 <= i < |routes| ==> routes[i].order <= nextOrder)
      && (!dirty ==> Sorted(sorted) && SameRoutes(sorted, routes))
    }

    method On() returns (route: Route)
      requires Valid()
      modifies this
      ensures Valid() && fresh(route) && routes == old(routes) + [route] && route.priority == 0
    {
      nextOrder := nextOrder + 1;
      route := new Route(nextOrder);
      routes := routes + [route];
      dirty := true;
    }

    method SetPriority(route: Route, priority: int)
      requires Valid() && route in routes
      modifies route`priority, this`dirty
      ensures Valid() && route.priority == priority
    {
      route.priority := priority;
      dirty := true;
    }

    /** Sorts again only when something changed; the result is a sorted list of all present routes either way. */
    method Snapshot() returns (snapshot: seq<Route>)
      requires Valid()
      modifies this`sorted, this`dirty
      ensures Valid() && Sorted(snapshot) && SameRoutes(snapshot, routes)
      ensures InPriorityOrder(snapshot, routes)
    {
      hide Precedes, InPriorityOrder;
      if dirty {
        sorted := SortRoutes(routes);
        dirty := false;
      }
      snapshot := sorted;
      SameRoutesAreRegistered(snapshot, routes);
      SortedMeans(routes, snapshot);
    }
  }

  lemma HeadComesFirst(a: seq<Route>, route: Route)
    requires Sorted(a) && route in multiset(a)
    ensures a != [] && (route == a[0] || Precedes(a[0], route))
  {
    var i :| 0 <= i < |a| && a[i] == route;
  }

  lemma FirstIsFirst(a: seq<Route>, b: seq<Route>)
    requires Sorted(a) && Sorted(b) && SameRoutes(a, b) && a != []
    ensures b != [] && a[0] == b[0]
  {
    assert a[0] in multiset(a);
    HeadComesFirst(b, a[0]);
    assert b[0] in multiset(b);
    HeadComesFirst(a, b[0]);
  }

  /** There is only one such list, so what a dispatch sees does not depend on the cache or on how the sort works. */
  lemma {:induction false} SortedOrderIsUnique(a: seq<Route>, b: seq<Route>)
    requires Sorted(a) && Sorted(b) && SameRoutes(a, b)
    ensures a == b
    decreases |a|
  {
    assert |multiset(a)| == |a| && |multiset(b)| == |b|;
    if a != [] {
      FirstIsFirst(a, b);
      assert a == [a[0]] + a[1..] && b == [b[0]] + b[1..];
      assert multiset(a[1..]) == multiset(a) - multiset{a[0]};
      assert multiset(b[1..]) == multiset(b) - multiset{b[0]};
      SortedOrderIsUnique(a[1..], b[1..]);
    }
  }
}
