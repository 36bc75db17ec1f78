/** A validated collection of routes: never empty on creation, and no two
    routes with the same (source, destination) pair. */
module TrajectoryStore {
  import opened Wrappers
  import opened Labels
  import opened RouteValue

  const RepError := "There cannot be repetition of a given route"
  const NoRouteError := "There cannot be no routes"

  /** No two routes share their endpoint pair (costs are not compared). */
  ghost predicate EndpointsDistinct(routes: seq<Route>)
  {
    forall i, j :: 0 <= i < j < |routes| ==> routes[i].Endpoints() != routes[j].Endpoints()
  }

  /** `Vec::contains` under the endpoint equality of `Route`. */
  predicate Contains(routes: seq<Route>, r: Route)
    ensures Contains(routes, r) <==> r.Endpoints() in set k | 0 <= k < |routes| :: routes[k].Endpoints()
  {
    exists k :: 0 <= k < |routes| && routes[k].Equals(r)
  }

  /** Some incoming route equals a route already held. */
  predicate AnyContained(existing: seq<Route>, incoming: seq<Route>)
    ensures AnyContained(existing, incoming) <==>
      exists i, k :: 0 <= i < |incoming| && 0 <= k < |existing| && existing[k].Endpoints() == incoming[i].Endpoints()
  {
    exists i :: 0 <= i < |incoming| && Contains(existing, incoming[i])
  }

  /** `Vec<Route>` equality derived from `Route::eq`: same length, and equal
      routes position by position; costs are not compared. */
  predicate SameRoutes(a: seq<Route>, b: seq<Route>)
  {
    |a| == |b| && forall i :: 0 <= i < |a| ==> a[i].Equals(b[i])
  }

  /** Collections whose routes differ only in cost are equal, though the
      route values differ. */
  lemma SameRoutesIgnoresDistance(a: seq<Route>, d: seq<nat>)
    requires |d| == |a|
    ensures SameRoutes(a, seq(|a|, i requires 0 <= i < |a| => Route(a[i].src, a[i].dst, d[i])))
    ensures SameRoutes([Route("A", "B", 1)], [Route("A", "B", 2)]) && [Route("A", "B", 1)] != [Route("A", "B", 2)]
  {
  }

  /** The routes `from_routes_tuples` builds, one per tuple. */
  ghost function BuiltRoutes(tuples: seq<(string, string, nat)>): seq<Route>
    requires forall i :: 0 <= i < |tuples| ==> FromTuple(tuples[i]).Ok?
  {
    seq(|tuples|, i requires 0 <= i < |tuples| => FromTuple(tuples[i]).value)
  }

  /** The endpoint pairs, one per route, in order. */
  method RoutesTuple(routes: seq<Route>) returns (pairs: seq<(string, string)>)
    ensures |pairs| == |routes|
    ensures forall i :: 0 <= i < |routes| ==> pairs[i] == (routes[i].src, routes[i].dst)
  {
    pairs := [];
    for i := 0 to |routes|
      invariant |pairs| == i
      invariant forall k :: 0 <= k < i ==> pairs[k] == (routes[k].src, routes[k].dst)
    {
      pairs := pairs + [routes[i].Endpoints()];
    }
  }

  /** Inserts each endpoint pair into a set and stops at the first that was
      already there. */
  method CheckUniques(routes: seq<Route>) returns (unique: bool)
    ensures unique <==> EndpointsDistinct(routes)
  {
    var pairs := RoutesTuple(routes);
    var seen: set<(string, string)> := {};
    for i := 0 to |pairs|
      invariant seen == set k | 0 <= k < i :: pairs[k]
      invariant EndpointsDistinct(routes[..i])
    {
      if pairs[i] in seen {
        var k :| 0 <= k < i && pairs[k] == pairs[i];
        assert routes[k].Endpoints() == routes[i].Endpoints();
        return false;
      }
      seen := seen + {pairs[i]};
      assert routes[..i + 1][i] == routes[i];
    }
    assert routes[..|routes|] == routes;
    return true;
  }

  function GuardAgainstEmptyRoutes(routes: seq<Route>): (err: Option<string>)
    ensures err.Some? <==> |routes| == 0
    ensures err.Some? ==> err.value == NoRouteError
  {
    if |routes| == 0 then Some(NoRouteError) else None
  }

  method GuardAgainstRepeatedRoutes(routes: seq<Route>) returns (err: Option<string>)
    ensures err.Some? <==> !EndpointsDistinct(routes)
    ensures err.Some? ==> err.value == RepError
  {
    var unique := CheckUniques(routes);
    err := if unique then None else Some(RepError);
  }

  /** The emptiness check runs first, so an empty list reports only that. */
  method GuardClauses(routes: seq<Route>) returns (err: Option<string>)
    ensures |routes| == 0 ==> err == Some(NoRouteError)
    ensures |routes| > 0 && !EndpointsDistinct(routes) ==> err == Some(RepError)
    ensures err == None <==> |routes| > 0 && EndpointsDistinct(routes)
  {
    err := GuardAgainstEmptyRoutes(routes);
    if err.None? {
      err := GuardAgainstRepeatedRoutes(routes);
    }
  }

  class Trajectories {
    var routes: seq<Route>

    /** What `new` establishes. */
    ghost predicate Valid()
      reads this
    {
      |routes| > 0 && EndpointsDistinct(routes)
    }

    constructor Init(routes: seq<Route>)
      ensures this.routes == routes
    {
      this.routes := routes;
    }

    static method New(routes: seq<Route>) returns (r: Result<Trajectories>)
      ensures |routes| == 0 ==> r == Err(NoRouteError)
      ensures |routes| > 0 && !EndpointsDistinct(routes) ==> r == Err(RepError)
      ensures r.Ok? <==> |routes| > 0 && EndpointsDistinct(routes)
      ensures r.Ok? ==> fresh(r.value) && r.value.routes == routes && r.value.Valid()
    {
      var err := GuardClauses(routes);
      if err.Some? {
        return Err(err.value);
      }
      var t := new Trajectories.Init(routes);
      return Ok(t);
    }

    /** Builds every route with `from_tuple`, then applies `New`. Rust's
        `from_routes_tuples` calls `.ok().unwrap()` on each `from_tuple`
        result, so an invalid tuple is a precondition violation here. */
    static method FromRoutesTuples(tuples: seq<(string, string, nat)>) returns (r: Result<Trajectories>)
      requires forall i :: 0 <= i < |tuples| ==> FromTuple(tuples[i]).Ok?
      ensures |tuples| == 0 ==> r == Err(NoRouteError)
      ensures |tuples| > 0 && !EndpointsDistinct(BuiltRoutes(tuples)) ==> r == Err(RepError)
      ensures r.Ok? <==> |tuples| > 0 && EndpointsDistinct(BuiltRoutes(tuples))
      ensures r.Ok? ==> fresh(r.value) && r.value.Valid() && r.value.routes == BuiltRoutes(tuples)
    {
      var routes := seq(|tuples|, i requires 0 <= i < |tuples| => FromTuple(tuples[i]).value);
      r := New(routes);
    }

    /** Rust's derived `PartialEq` for `Trajectories`: the two route lists
        are equal element by element under `Route::eq`. */
    predicate EqualTo(other: Trajectories)
      reads this, other
    {
      SameRoutes(routes, other.routes)
    }

    /** As written: each incoming route is checked against the routes
        already held, not against the other incoming ones. The incoming
        vector is drained on success; `remaining` is what is left of it. */
    method Append(incoming: seq<Route>) returns (res: Result<()>, remaining: seq<Route>)
      modifies this
      ensures res.Err? <==> AnyContained(old(routes), incoming)
      ensures res.Err? ==> res.error == RepError && routes == old(routes) && remaining == incoming
      ensures res.Ok? ==> routes == old(routes) + incoming && remaining == []
    {
      if AnyContained(routes, incoming) {
        return Err(RepError), incoming;
      }
      routes := routes + incoming;
      return Ok(()), [];
    }

    /** `Append` with the evidently intended check: the incoming routes may
        repeat neither a held route nor one another, so `Valid` is kept. */
    method AppendUnique(incoming: seq<Route>) returns (res: Result<()>, remaining: seq<Route>)
      modifies this
      ensures res.Err? <==> AnyContained(old(routes), incoming) || !EndpointsDistinct(incoming)
      ensures res.Err? ==> res.error == RepError && routes == old(routes) && remaining == incoming
      ensures res.Ok? ==> routes == old(routes) + incoming && remaining == []
      ensures old(Valid()) ==> Valid()
    {
      var unique := CheckUniques(incoming);
      if !unique || AnyContained(routes, incoming) {
        return Err(RepError), incoming;
      }
      if EndpointsDistinct(routes) {
        ConcatKeepsDistinct(routes, incoming);
      }
      routes := routes + incoming;
      return Ok(()), [];
    }

    /** The sorted, duplicate-free list of every endpoint label. */
    method Nodes() returns (labels: seq<string>)
      ensures StrictlySorted(labels)
      ensures forall x :: x in labels <==> exists i :: 0 <= i < |routes| && (routes[i].src == x || routes[i].dst == x)
    {
      var pairs := RoutesTuple(routes);
      labels := SortedLabels(pairs);
      forall x ensures Occurs(pairs, x) <==> exists i :: 0 <= i < |routes| && (routes[i].src == x || routes[i].dst == x) {
        if Occurs(pairs, x) {
          var i :| 0 <= i < |pairs| && (pairs[i].0 == x || pairs[i].1 == x);
          assert routes[i].src == x || routes[i].dst == x;
        }
      }
    }
  }

  /** Joining two repetition-free lists with no route in common gives a
      repetition-free list. */
  lemma ConcatKeepsDistinct(a: seq<Route>, b: seq<Route>)
    requires EndpointsDistinct(a) && EndpointsDistinct(b) && !AnyContained(a, b)
    ensures EndpointsDistinct(a + b)
  {
    forall i, j | 0 <= i < j < |a + b| ensures (a + b)[i].Endpoints() != (a + b)[j].Endpoints() {
      if i < |a| <= j {
        assert !Contains(a, b[j - |a|]);
        assert !a[i].Equals(b[j - |a|]);
      }
    }
  }

  /** The five routes of the test fixture. */
  function MockRoutes(): seq<Route>
  {
    [Route("A", "B", 1), Route("B", "C", 1), Route("C", "D", 1), Route("B", "D", 1), Route("E", "A", 1)]
  }

  /** The fixture passes both guards, and any label list meeting the
      contract of `Nodes` on it is A, B, C, D, E: five labels. */
  lemma MockNodes(labels: seq<string>)
    requires StrictlySorted(labels)
    requires forall x :: x in labels <==> exists i :: 0 <= i < |MockRoutes()| && (MockRoutes()[i].src == x || MockRoutes()[i].dst == x)
    ensures EndpointsDistinct(MockRoutes())
    ensures labels == ["A", "B", "C", "D", "E"] && |labels| == 5
  {
    var m := MockRoutes();
    var pairs := [("A", "B"), ("B", "C"), ("C", "D"), ("B", "D"), ("E", "A")];
    forall x ensures x in labels <==> Occurs(pairs, x) {
      if x in labels {
        var i :| 0 <= i < |m| && (m[i].src == x || m[i].dst == x);
        assert pairs[i] == (m[i].src, m[i].dst);
      }
      if Occurs(pairs, x) {
        var i :| 0 <= i < |pairs| && (pairs[i].0 == x || pairs[i].1 == x);
        assert pairs[i] == (m[i].src, m[i].dst);
      }
    }
    FixtureLabels(labels, pairs);
  }

  /** The finding: appending two routes with a common endpoint pair that no
      held route has passes the check of `Append`, and the result repeats a
      route, which `New` would have refused. */
  lemma AppendAdmitsRepetition()
    ensures var incoming := [Route("X", "Y", 1), Route("X", "Y", 2)];
      !AnyContained(MockRoutes(), incoming)
      && EndpointsDistinct(MockRoutes())
      && !EndpointsDistinct(MockRoutes() + incoming)
  {
    var incoming := [Route("X", "Y", 1), Route("X", "Y", 2)];
    var joined := MockRoutes() + incoming;
    assert joined[5].Endpoints() == joined[6].Endpoints();
  }
}
