/** A labelled, weighted, directed edge that rejects self-loops and zero
    costs, compared by its endpoints only. */
module RouteValue {
  import opened Wrappers

  const SelfRouteError := "Impossible to have a route to itself"
  const ZeroDistanceError := "A route with zero distance is a route to itself"

  /** The Rust `usize` cost is kept as a `nat`: this layer never adds costs. */
  datatype Route = Route(src: string, dst: string, delta: nat) {

    function Endpoints(): (e: (string, string))
      ensures e.0 == src && e.1 == dst
    {
      (src, dst)
    }

    function Source(): (s: string)
      ensures s == Endpoints().0
    {
      src
    }

    function Destination(): (d: string)
      ensures d == Endpoints().1
    {
      dst
    }

    function Distance(): (d: nat)
      ensures d == delta
    {
      delta
    }

    /** `PartialEq`: the cost plays no part. */
    predicate Equals(other: Route)
      ensures Equals(other) <==> Endpoints() == other.Endpoints()
    {
      src == other.src && dst == other.dst
    }
  }

  /** What `new` lets through. */
  ghost predicate Acceptable(r: Route)
  {
    r.src != r.dst && r.delta > 0
  }

  function New(src: string, dst: string, delta: nat): (r: Result<Route>)
    ensures src == dst ==> r == Err(SelfRouteError)
    ensures src != dst && delta == 0 ==> r == Err(ZeroDistanceError)
    ensures r.Ok? <==> src != dst && delta > 0
    ensures r.Ok? ==> r.value.src == src && r.value.dst == dst && r.value.delta == delta
    ensures r.Ok? ==> Acceptable(r.value) && r.value.Distance() > 0
  {
    if src == dst then Err(SelfRouteError)
    else if delta == 0 then Err(ZeroDistanceError)
    else Ok(Route(src, dst, delta))
  }

  function FromTuple(t: (string, string, nat)): (r: Result<Route>)
    ensures r == New(t.0, t.1, t.2)
    ensures r.Ok? ==> (r.value.src, r.value.dst, r.value.delta) == t
  {
    New(t.0, t.1, t.2)
  }

  /** Every route `new` can return is rebuilt from its own fields. */
  lemma NewRoundTrip(r: Route)
    requires Acceptable(r)
    ensures New(r.Source(), r.Destination(), r.Distance()) == Ok(r)
    ensures FromTuple((r.src, r.dst, r.delta)) == Ok(r)
  {
  }

  /** Route equality is endpoint equality, and an equivalence. */
  lemma EqualsIsEndpointEquality(a: Route, b: Route, c: Route)
    ensures a.Equals(b) <==> a.Endpoints() == b.Endpoints()
    ensures a.Equals(a)
    ensures a.Equals(b) ==> b.Equals(a)
    ensures a.Equals(b) && b.Equals(c) ==> a.Equals(c)
  {
  }

  /** Two routes that differ only in cost are equal. */
  lemma EqualsIgnoresDistance(a: Route, d: nat)
    ensures a.Equals(Route(a.src, a.dst, d))
    ensures d != a.delta ==> Route(a.src, a.dst, d) != a
  {
  }
}
