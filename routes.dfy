/** The dense graph: every endpoint label gets the index of its rank in the
    sorted label table, and each edge is stored as (source index,
    destination index, cost) in three parallel lists. */
module DenseGraph {
  import opened Labels

  datatype Ordering = Less | Equal | Greater

  /** One outgoing edge of an adjacency row. */
  datatype Edge = Edge(to: nat, cost: nat) {

    /** `PartialEq`: only the cost is compared. */
    predicate Eq(other: Edge)
      ensures Eq(other) <==> Edge(0, cost) == Edge(0, other.cost)
    {
      cost == other.cost
    }

    /** `PartialOrd`: the order of the costs (always defined on `usize`). */
    function PartialCmp(other: Edge): (o: Ordering)
      ensures o == Less <==> cost < other.cost
      ensures o == Equal <==> Eq(other)
      ensures o == Greater <==> cost > other.cost
    {
      if cost < other.cost then Less else if cost == other.cost then Equal else Greater
    }
  }

  /** `Edge` comparisons see the cost alone, and agree with each other. */
  lemma EdgeComparisonIgnoresTarget(e: Edge, f: Edge, to1: nat, to2: nat)
    ensures e.Eq(f) <==> Edge(to1, e.cost).Eq(Edge(to2, f.cost))
    ensures e.PartialCmp(f) == Edge(to1, e.cost).PartialCmp(Edge(to2, f.cost))
    ensures e.PartialCmp(f) == Less <==> f.PartialCmp(e) == Greater
    ensures to1 != to2 ==> Edge(to1, e.cost).Eq(Edge(to2, e.cost)) && Edge(to1, e.cost) != Edge(to2, e.cost)
  {
  }

  datatype Routes = Routes(nodes: seq<string>, distances: seq<nat>, sources: seq<nat>, destinations: seq<nat>)

  /** The endpoint labels of the input edges. */
  function Pairs(rt: seq<(string, string, nat)>): seq<(string, string)>
  {
    seq(|rt|, i requires 0 <= i < |rt| => (rt[i].0, rt[i].1))
  }

  /** The set of distinct endpoint labels. */
  ghost function LabelSet(rt: seq<(string, string, nat)>): set<string>
  {
    (set i | 0 <= i < |rt| :: rt[i].0) + (set i | 0 <= i < |rt| :: rt[i].1)
  }

  /** What `from` builds out of `rt`: the sorted label table, and per edge
      the indices of its two labels in it and its cost. */
  ghost predicate Represents(g: Routes, rt: seq<(string, string, nat)>)
  {
    && StrictlySorted(g.nodes)
    && (forall x :: x in g.nodes <==> Occurs(Pairs(rt), x))
    && |g.distances| == |rt| && |g.sources| == |rt| && |g.destinations| == |rt|
    && (forall i :: 0 <= i < |rt| ==>
          && g.sources[i] < |g.nodes| && g.nodes[g.sources[i]] == rt[i].0
          && g.destinations[i] < |g.nodes| && g.nodes[g.destinations[i]] == rt[i].1
          && g.distances[i] == rt[i].2)
  }

  /** The three per-edge lists have one entry per edge. */
  ghost predicate WellFormed(g: Routes)
  {
    |g.sources| == |g.destinations| == |g.distances|
  }

  /** `Iterator::position`, first match. Rust's `position(..).unwrap()`
      cannot fail here: every label looked up is in the table. */
  method Position(nodes: seq<string>, x: string) returns (k: nat)
    requires x in nodes
    ensures k < |nodes| && nodes[k] == x
    ensures forall j :: 0 <= j < k ==> nodes[j] != x
  {
    k := 0;
    while nodes[k] != x
      invariant k < |nodes|
      invariant x in nodes[k..]
      invariant forall j :: 0 <= j < k ==> nodes[j] != x
      decreases |nodes| - k
    {
      assert nodes[k..] == [nodes[k]] + nodes[k + 1..];
      k := k + 1;
    }
  }

  method From(rt: seq<(string, string, nat)>) returns (g: Routes)
    ensures Represents(g, rt)
  {
    var pairs := Pairs(rt);
    var nodes := SortedLabels(pairs);
    var distances := seq(|rt|, i requires 0 <= i < |rt| => rt[i].2);
    var sources: seq<nat> := [];
    var destinations: seq<nat> := [];
    for i := 0 to |rt|
      invariant |sources| == i && |destinations| == i
      invariant forall k :: 0 <= k < i ==> sources[k] < |nodes| && nodes[sources[k]] == rt[k].0
      invariant forall k :: 0 <= k < i ==> destinations[k] < |nodes| && nodes[destinations[k]] == rt[k].1
    {
      assert Occurs(pairs, rt[i].0) && Occurs(pairs, rt[i].1) by {
        assert pairs[i] == (rt[i].0, rt[i].1);
      }
      var s := Position(nodes, rt[i].0);
      var d := Position(nodes, rt[i].1);
      sources := sources + [s];
      destinations := destinations + [d];
    }
    g := Routes(nodes, distances, sources, destinations);
  }

  function NodesCount(g: Routes): nat
  {
    |g.nodes|
  }

  /** The indices of the edges whose source is `n`, scanning in input order. */
  function Occurrences(sources: seq<nat>, n: nat): seq<nat>
  {
    if sources == [] then []
    else
      var last := |sources| - 1;
      var rest := Occurrences(sources[..last], n);
      if sources[last] == n then rest + [last] else rest
  }

  /** `Occurrences` lists exactly the edges leaving `n`, each once, in
      increasing order. */
  lemma {:induction false} OccurrencesSpec(sources: seq<nat>, n: nat)
    ensures var idx := Occurrences(sources, n);
      && (forall k :: 0 <= k < |idx| ==> idx[k] < |sources| && sources[idx[k]] == n)
      && (forall k, l :: 0 <= k < l < |idx| ==> idx[k] < idx[l])
      && (forall i :: 0 <= i < |sources| && sources[i] == n ==> i in idx)
  {
    if sources != [] {
      var last := |sources| - 1;
      OccurrencesSpec(sources[..last], n);
    }
  }

  /** Row `n` of the adjacency list over the first `m` edges: the edges with
      source `n`, in input order. */
  function OutEdges(g: Routes, n: nat, m: nat): (row: seq<Edge>)
    requires WellFormed(g) && m <= |g.sources|
    ensures |row| == |Occurrences(g.sources[..m], n)|
    ensures forall k :: 0 <= k < |row| ==>
      var i := Occurrences(g.sources[..m], n)[k];
      i < |g.sources| && row[k] == Edge(g.destinations[i], g.distances[i])
  {
    if m == 0 then []
    else
      assert g.sources[..m][..m - 1] == g.sources[..m - 1];
      var rest := OutEdges(g, n, m - 1);
      if g.sources[m - 1] == n then rest + [Edge(g.destinations[m - 1], g.distances[m - 1])] else rest
  }

  /** One row per node; row `n` holds one `Edge` per input edge whose source
      is `n`, in input order, and nothing else. */
  function AdjList(g: Routes): (adj: seq<seq<Edge>>)
    requires WellFormed(g)
    ensures |adj| == NodesCount(g)
    ensures forall n :: 0 <= n < |adj| ==> |adj[n]| == |Occurrences(g.sources, n)|
    ensures forall n, k :: 0 <= n < |adj| && 0 <= k < |adj[n]| ==>
      var i := Occurrences(g.sources, n)[k];
      i < |g.sources| && adj[n][k] == Edge(g.destinations[i], g.distances[i])
  {
    assert g.sources[..|g.sources|] == g.sources;
    seq(NodesCount(g), n requires 0 <= n => OutEdges(g, n, |g.sources|))
  }

  /** `nodes_count` is the number of distinct endpoint labels. */
  lemma NodesCountIsLabelCount(g: Routes, rt: seq<(string, string, nat)>)
    requires Represents(g, rt)
    ensures NodesCount(g) == |LabelSet(rt)|
  {
    forall x ensures x in g.nodes <==> x in LabelSet(rt) {
      if x in g.nodes {
        var i :| 0 <= i < |Pairs(rt)| && (Pairs(rt)[i].0 == x || Pairs(rt)[i].1 == x);
        assert rt[i].0 == x || rt[i].1 == x;
      }
      if x in LabelSet(rt) {
        var i :| 0 <= i < |rt| && (rt[i].0 == x || rt[i].1 == x);
        assert Pairs(rt)[i] == (rt[i].0, rt[i].1);
      }
    }
    assert (set x | x in g.nodes) == LabelSet(rt);
    DistinctCardinality(g.nodes);
  }

  /** The index assignment is reproducible: `rt` determines the graph. */
  lemma RepresentationUnique(g1: Routes, g2: Routes, rt: seq<(string, string, nat)>)
    requires Represents(g1, rt) && Represents(g2, rt)
    ensures g1 == g2
  {
    StrictlySortedUnique(g1.nodes, g2.nodes);
    forall i | 0 <= i < |rt| ensures g1.sources[i] == g2.sources[i] && g1.destinations[i] == g2.destinations[i] {
      assert g1.nodes[g1.sources[i]] == g1.nodes[g2.sources[i]];
      assert g1.nodes[g1.destinations[i]] == g1.nodes[g2.destinations[i]];
    }
  }

  /** Every input edge is listed in the row of its source label, pointing at
      the index of its destination label with its cost. */
  lemma AdjListComplete(g: Routes, rt: seq<(string, string, nat)>, i: nat)
    requires Represents(g, rt) && i < |rt|
    ensures WellFormed(g) && g.sources[i] < |AdjList(g)|
    ensures exists k :: (0 <= k < |AdjList(g)[g.sources[i]]| &&
                         var e := AdjList(g)[g.sources[i]][k];
                         g.nodes[e.to] == rt[i].1 && e.cost == rt[i].2)
  {
    var n := g.sources[i];
    var idx := Occurrences(g.sources, n);
    OccurrencesSpec(g.sources, n);
    assert i in idx;
    var k :| 0 <= k < |idx| && idx[k] == i;
    assert AdjList(g)[n][k] == Edge(g.destinations[i], g.distances[i]);
  }

  /** Every edge in row `n` comes from an input edge that leaves the label of
      `n` towards the label of its target, with its cost. */
  lemma AdjListSound(g: Routes, rt: seq<(string, string, nat)>, n: nat, k: nat)
    requires Represents(g, rt) && n < NodesCount(g)
    requires WellFormed(g) && k < |AdjList(g)[n]|
    ensures AdjList(g)[n][k].to < NodesCount(g)
    ensures exists i :: (0 <= i < |rt| &&
                         rt[i] == (g.nodes[n], g.nodes[AdjList(g)[n][k].to], AdjList(g)[n][k].cost))
  {
    OccurrencesSpec(g.sources, n);
    var i := Occurrences(g.sources, n)[k];
    assert rt[i] == (g.nodes[n], g.nodes[AdjList(g)[n][k].to], AdjList(g)[n][k].cost);
  }

  /** The fixture edge list of the repository. */
  function SampleRoutes(): seq<(string, string, nat)>
  {
    [("A", "B", 1), ("B", "C", 1), ("C", "D", 1), ("B", "D", 1), ("E", "A", 1)]
  }

  /** On the fixture: five nodes A..E at indices 0..4, and the adjacency
      list A->B, B->C then B->D, C->D, nothing from D, E->A. */
  lemma SampleGraph(g: Routes)
    requires Represents(g, SampleRoutes())
    ensures NodesCount(g) == 5
    ensures g.nodes == ["A", "B", "C", "D", "E"]
    ensures g.sources == [0, 1, 2, 1, 4] && g.destinations == [1, 2, 3, 3, 0]
    ensures WellFormed(g)
    ensures AdjList(g) == [[Edge(1, 1)], [Edge(2, 1), Edge(3, 1)], [Edge(3, 1)], [], [Edge(0, 1)]]
  {
    SampleNodes(g);
    SampleIndices(g);
    var adj := AdjList(g);
    forall n | 0 <= n < 5 ensures adj[n] == [[Edge(1, 1)], [Edge(2, 1), Edge(3, 1)], [Edge(3, 1)], [], [Edge(0, 1)]][n] {
      SampleOccurrences(g.sources, n);
    }
  }

  lemma SampleNodes(g: Routes)
    requires Represents(g, SampleRoutes())
    ensures g.nodes == ["A", "B", "C", "D", "E"]
  {
    FixtureLabels(g.nodes, Pairs(SampleRoutes()));
  }

  lemma SampleIndices(g: Routes)
    requires Represents(g, SampleRoutes()) && g.nodes == ["A", "B", "C", "D", "E"]
    ensures g.sources == [0, 1, 2, 1, 4] && g.destinations == [1, 2, 3, 3, 0]
  {
  }

  /** Occurrences grows by one index when an edge is added at the end. */
  lemma OccurrencesSnoc(s: seq<nat>, x: nat, n: nat)
    ensures Occurrences(s + [x], n) == Occurrences(s, n) + (if x == n then [|s|] else [])
  {
    assert (s + [x])[..|s|] == s;
  }

  /** Row indices of the fixture's source list, one edge at a time. */
  lemma SampleOccurrences(s: seq<nat>, n: nat)
    requires s == [0, 1, 2, 1, 4]
    ensures Occurrences(s, n) == if n == 0 then [0] else if n == 1 then [1, 3] else if n == 2 then [2] else if n == 4 then [4] else []
  {
    var s0: seq<nat> := [];
    var s1: seq<nat> := [0];
    var s2: seq<nat> := [0, 1];
    var s3: seq<nat> := [0, 1, 2];
    var s4: seq<nat> := [0, 1, 2, 1];
    var z: seq<nat> := [];
    OccurrencesSnoc(s0, 0, n);
    assert s0 + [0] == s1;
    var o1 := if n == 0 then [0] else z;
    assert Occurrences(s1, n) == o1;
    OccurrencesSnoc(s1, 1, n);
    assert s1 + [1] == s2;
    var o2 := if n == 0 then [0] else if n == 1 then [1] else z;
    assert Occurrences(s2, n) == o2;
    OccurrencesSnoc(s2, 2, n);
    assert s2 + [2] == s3;
    var o3 := if n == 0 then [0] else if n == 1 then [1] else if n == 2 then [2] else z;
    assert Occurrences(s3, n) == o3;
    OccurrencesSnoc(s3, 1, n);
    assert s3 + [1] == s4;
    var o4 := if n == 0 then [0] else if n == 1 then [1, 3] else if n == 2 then [2] else z;
    assert Occurrences(s4, n) == o4;
    OccurrencesSnoc(s4, 4, n);
    assert s4 + [4] == s;
  }
}
