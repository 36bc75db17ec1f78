/** The earlier copy of the route validator: the same checks, but with the
    derived equality, which also compares the cost. */
module LegacyRoute {
  import opened Wrappers
  import RouteValue

  const SelfRouteError := "Impossible to have a route to itself"
  const ZeroDistanceError := "A route with zero distance is a route to itself"

  /** Equality on this type is Dafny's structural `==`, as `#[derive(PartialEq)]`. */
  datatype Route = Route(src: string, dst: string, delta: nat)

  function New(src: string, dst: string, delta: nat): (r: Result<Route>)
    ensures src == dst ==> r == Err(SelfRouteError)
    ensures src != dst && delta == 0 ==> r == Err(ZeroDistanceError)
    ensures r.Ok? <==> src != dst && delta > 0
    ensures r.Ok? ==> r.value == Route(src, dst, delta)
  {
    if src == dst then Err(SelfRouteError)
    else if delta == 0 then Err(ZeroDistanceError)
    else Ok(Route(src, dst, delta))
  }

  /** Both validators accept the same arguments, fail with the same message,
      and store the same fields. */
  lemma AgreesWithRouteValue(src: string, dst: string, delta: nat)
    ensures New(src, dst, delta).Ok? <==> RouteValue.New(src, dst, delta).Ok?
    ensures New(src, dst, delta).Err? ==> New(src, dst, delta).error == RouteValue.New(src, dst, delta).error
    ensures New(src, dst, delta).Ok? ==>
      var a, b := New(src, dst, delta).value, RouteValue.New(src, dst, delta).value;
      a.src == b.src && a.dst == b.dst && a.delta == b.delta
  {
  }

  /** The two equalities part ways on routes that share endpoints and differ
      in cost: equal in the newer type, distinct here. */
  lemma EqualityComparesDistance(src: string, dst: string, d1: nat, d2: nat)
    requires d1 != d2
    ensures RouteValue.Route(src, dst, d1).Equals(RouteValue.Route(src, dst, d2))
    ensures Route(src, dst, d1) != Route(src, dst, d2)
  {
  }
}
