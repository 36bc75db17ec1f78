/** The two label tables of the layer agree: the node list a collection of
    routes reports is the label table the dense graph built from the same
    edges indexes into. */
module Agreement {
  import opened Labels
  import RouteValue
  import DenseGraph

  lemma NodesAgree(labels: seq<string>, routes: seq<RouteValue.Route>, g: DenseGraph.Routes, rt: seq<(string, string, nat)>)
    requires |routes| == |rt|
    requires forall i :: 0 <= i < |rt| ==> routes[i].src == rt[i].0 && routes[i].dst == rt[i].1
    requires StrictlySorted(labels)
    requires forall x :: x in labels <==> exists i :: 0 <= i < |routes| && (routes[i].src == x || routes[i].dst == x)
    requires DenseGraph.Represents(g, rt)
    ensures labels == g.nodes
    ensures forall i :: 0 <= i < |rt| ==> labels[g.sources[i]] == routes[i].src && labels[g.destinations[i]] == routes[i].dst
  {
    forall x ensures x in labels <==> x in g.nodes {
      var p := DenseGraph.Pairs(rt);
      if x in labels {
        var i :| 0 <= i < |routes| && (routes[i].src == x || routes[i].dst == x);
        assert p[i].0 == x || p[i].1 == x;
      }
      if x in g.nodes {
        var i :| 0 <= i < |p| && (p[i].0 == x || p[i].1 == x);
        assert routes[i].src == x || routes[i].dst == x;
      }
    }
    StrictlySortedUnique(labels, g.nodes);
  }
}
