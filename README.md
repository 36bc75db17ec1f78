# Graph input layer of a weighted directed-graph router

This Dafny project models the layer of the CarrierRoutes router that turns
labelled edges into a dense, index-based graph, and proves what that layer
promises.

- **Routes** (`src/lib/route.rs`, module `RouteValue`) are labelled, weighted,
  directed edges. `new` rejects a route from a label to itself, and then a
  zero cost, in that order. Two routes are equal when their endpoints match;
  the cost is not compared.
- **The earlier route copy** (`src/lib/mod.rs`, module `LegacyRoute`) runs the
  same two checks. Its derived equality compares all three fields.
- **Trajectories** (`src/lib/trajectory.rs`, module `TrajectoryStore`, class
  `Trajectories`) is a collection of routes. `new` refuses an empty list, and
  then any list in which two routes share a (source, destination) pair.
  `append` adds routes in place. `nodes` reports the sorted, duplicate-free
  endpoint labels.
- **The dense graph** (`src/lib/routes.rs`, module `DenseGraph`) gives each
  label the index of its rank in the sorted label table. For every edge it
  stores its source index, destination index and cost. An adjacency list is
  derived from these, with one row per node and each row's edges in input
  order.

Module `Labels` holds what the route collection and the graph share:
- the lexicographic order Rust's `String` sorts by (a total order, as its
  four lemmas show);
- the fold that collects each label the first time it is seen;
- `Vec::sort`, modelled as an insertion sort in place on an array;
- the fact that a strictly sorted table is determined by the labels it holds.

Module `Agreement` proves that the route collection's node list and the
graph's label table are the same table. Module `Wrappers` holds `Option` and
`Result`, which stand for Rust's `Option` and `Result<_, &str>`.

Costs are Rust `usize` values and are modelled as `nat`. Nothing in this
layer adds, subtracts or compares them beyond equality and order, so no
wrap-around can arise. Where a Rust function returns `Result<T, &str>`, the
model returns `Result<T>` over the same message strings, which are kept as
constants.

## Model

| member | source | states |
|---|---|---|
| `RouteValue.New` | src/lib/route.rs:11-21 | a self-loop fails with "Impossible to have a route to itself" whatever the cost; otherwise a zero cost fails with the zero-distance message; it succeeds exactly when the endpoints differ and the cost is positive; the stored fields are the arguments and `Distance()` is positive |
| `RouteValue.NewRoundTrip` | src/lib/route.rs:11-25 | every route `new` can produce is rebuilt unchanged by `new` from its own accessors, and by `from_tuple` from its fields |
| `RouteValue.FromTuple` | src/lib/route.rs:23-25 | behaves exactly like `new` on the tuple's three components, and on success stores them |
| `RouteValue.Route.Endpoints` | src/lib/route.rs:27-29 | returns the pair (source, destination) |
| `RouteValue.Route.Source` | src/lib/route.rs:31-33 | is the first component of `Endpoints()` |
| `RouteValue.Route.Destination` | src/lib/route.rs:35-37 | is the second component of `Endpoints()` |
| `RouteValue.Route.Distance` | src/lib/route.rs:39-41 | is the stored cost |
| `RouteValue.Route.Equals` | src/lib/route.rs:54-58 | two routes are equal iff their endpoint pairs are equal; the cost is not compared |
| `RouteValue.EqualsIsEndpointEquality` | src/lib/route.rs:54-58 | two routes are equal iff their endpoint pairs are equal; this equality is reflexive, symmetric and transitive |
| `RouteValue.EqualsIgnoresDistance` | src/lib/route.rs:54-58 | a route equals any route with the same endpoints and another cost, although the two values differ |
| `TrajectoryStore.Contains` | src/lib/trajectory.rs:35 | `Vec::contains` under route equality: true iff the route's endpoint pair is the pair of some route in the list |
| `TrajectoryStore.AnyContained` | src/lib/trajectory.rs:35 | true iff some incoming route has the endpoint pair of some held route |
| `LegacyRoute.New` | src/lib/mod.rs:11-21 | the same error order as the newer validator; on success it returns exactly the route holding the three arguments |
| `LegacyRoute.AgreesWithRouteValue` | src/lib/mod.rs:11-21 | on every input, the two validators accept the same arguments, fail with the same message and store the same fields |
| `LegacyRoute.EqualityComparesDistance` | src/lib/mod.rs:3-8 | routes with the same endpoints and different costs are distinct under the derived equality and equal under the newer type's equality |
| `TrajectoryStore.RoutesTuple` | src/lib/trajectory.rs:94-102 | one endpoint pair per route, in the order of the routes |
| `TrajectoryStore.CheckUniques` | src/lib/trajectory.rs:104-109 | returns true iff no two routes share their (source, destination) pair |
| `TrajectoryStore.GuardAgainstEmptyRoutes` | src/lib/trajectory.rs:52-59 | reports "There cannot be no routes" exactly when the list is empty |
| `TrajectoryStore.GuardAgainstRepeatedRoutes` | src/lib/trajectory.rs:61-68 | reports the repetition error exactly when two routes share their endpoints |
| `TrajectoryStore.GuardClauses` | src/lib/trajectory.rs:42-50 | the empty check comes first: an empty list reports only emptiness, a non-empty list with a repeated pair reports repetition, and there is no error iff the list is non-empty and free of repeated pairs |
| `TrajectoryStore.Trajectories.New` | src/lib/trajectory.rs:15-22 | fails with the guard's message in the same order; it succeeds iff the list is non-empty and free of repeated pairs, and then holds the list unchanged in a fresh object |
| `TrajectoryStore.Trajectories.FromRoutesTuples` | src/lib/trajectory.rs:24-32 | builds route i from tuple i with `from_tuple`, then applies `new` to that list. An empty list fails with the no-routes message, and a repeated pair with the repetition error. It succeeds iff the list is non-empty and free of repeated pairs; the new object then holds exactly the built routes |
| `TrajectoryStore.SameRoutes` | src/lib/trajectory.rs:6-9 | the equality `#[derive(PartialEq)]` gives `Vec<Route>`: same length, and routes at the same position equal under `Route::eq`, so costs are not compared |
| `TrajectoryStore.Trajectories.EqualTo` | src/lib/trajectory.rs:6-9 | the derived equality of two collections is `SameRoutes` on their route lists |
| `TrajectoryStore.SameRoutesIgnoresDistance` | src/lib/trajectory.rs:6-9 | the derived equality of the route lists (same length, pairwise `Route::eq`) holds between lists whose routes differ only in cost, although the lists differ as values |
| `TrajectoryStore.Trajectories.Append` | src/lib/trajectory.rs:34-40 | as written: fails with the repetition error iff some incoming route has the endpoints of a held route, whatever its cost. On failure the held routes and the argument are unchanged. On success the held routes are the old ones followed by the incoming ones, and the argument is left empty |
| `TrajectoryStore.Trajectories.AppendUnique` | src/lib/trajectory.rs:34-40 | the corrected append: it also fails when the incoming routes repeat a pair among themselves, and it keeps the invariant that `new` establishes |
| `TrajectoryStore.ConcatKeepsDistinct` | src/lib/trajectory.rs:34-39 | two lists, each free of repeated pairs and sharing no pair, join into a list free of repeated pairs |
| `TrajectoryStore.AppendAdmitsRepetition` | src/lib/trajectory.rs:34-37 | appending X->Y(1) and X->Y(2) to the fixture passes `append`'s check, and the result repeats a pair |
| `TrajectoryStore.Trajectories.Nodes` | src/lib/trajectory.rs:74-92 | strictly sorted (sorted and duplicate-free), and a label is in it iff it is the source or destination of some held route |
| `TrajectoryStore.MockNodes` | src/lib/trajectory.rs:163-169 | the fixture passes the repetition guard, and its node list is A, B, C, D, E, of length 5 |
| `Labels.LexLeReflexive` | src/lib/routes.rs:54 | the string order is reflexive |
| `Labels.LexLe` | src/lib/routes.rs:54 | Rust's `Ord for String`, lexicographic on characters with a proper prefix first; `LexLeCharacterization` and the four order lemmas state its properties |
| `Labels.LexLeTotal` | src/lib/routes.rs:54 | any two strings are comparable |
| `Labels.LexLeAntisymmetric` | src/lib/routes.rs:54 | strings that are each at most the other are equal |
| `Labels.LexLeTransitive` | src/lib/routes.rs:54 | the string order is transitive |
| `Labels.LexLeCharacterization` | src/lib/routes.rs:54 | the string order holds iff the first string is a prefix of the second, or the two agree up to a first position where the first has the smaller character |
| `Labels.CollectLabels` | src/lib/routes.rs:43-52 | the fold yields a duplicate-free list holding exactly the labels that occur as a source or destination |
| `Labels.SortLabels` | src/lib/routes.rs:54 | after the in-place sort, the array is sorted and is a permutation of its old contents |
| `Labels.SortedLabels` | src/lib/trajectory.rs:74-92 | collecting and then sorting gives a strictly sorted list of exactly the occurring labels |
| `Labels.StrictlySortedUnique` | src/lib/routes.rs:43-54 | two strictly sorted lists with the same labels are equal, so the label table depends only on the set of labels |
| `Labels.DistinctCardinality` | src/lib/routes.rs:76-78 | a duplicate-free list is as long as its set of labels |
| `Labels.SortedPermutationOfDistinct` | src/lib/routes.rs:54 | sorting a duplicate-free list gives a strictly sorted list with the same labels |
| `DenseGraph.Edge.PartialCmp` | src/lib/routes.rs:34-38 | the result is Less, Equal or Greater exactly as the costs compare; Equal coincides with `Eq` |
| `DenseGraph.Edge.Eq` | src/lib/routes.rs:28-32 | two edges are equal iff they are equal once their targets are erased, i.e. iff their costs are equal |
| `DenseGraph.EdgeComparisonIgnoresTarget` | src/lib/routes.rs:28-38 | equality and ordering of edges do not depend on `to`; edges with equal costs and different targets are equal under `Eq` although they are different values |
| `DenseGraph.Position` | src/lib/routes.rs:60 | the first index holding the label (the unwrap never fails: the label is in the table) |
| `DenseGraph.From` | src/lib/routes.rs:42-68 | the label table is strictly sorted and holds exactly the endpoint labels; the three per-edge lists are as long as the input; for each edge i, `nodes[sources[i]]` and `nodes[destinations[i]]` are its labels, both indices are below the node count, and `distances[i]` is its cost |
| `DenseGraph.RepresentationUnique` | src/lib/routes.rs:42-68 | two graphs that satisfy `From`'s contract for the same edges are equal, so the index assignment is reproducible |
| `DenseGraph.NodesCount` | src/lib/routes.rs:76-78 | the length of the label table; `NodesCountIsLabelCount` proves it is the number of distinct endpoint labels |
| `DenseGraph.NodesCountIsLabelCount` | src/lib/routes.rs:76-78 | `nodes_count` equals the number of distinct endpoint labels |
| `DenseGraph.OccurrencesSpec` | src/lib/routes.rs:89-90 | the filtered index list holds, in strictly increasing order, exactly the edges whose source is the node |
| `DenseGraph.OutEdges` | src/lib/routes.rs:88-94 | over the first m edges, the row has one entry per matching index, in input order, carrying that edge's destination and cost |
| `DenseGraph.AdjList` | src/lib/routes.rs:82-96 | exactly `nodes_count` rows; row n has one `Edge{to: destinations[i], cost: distances[i]}` per edge i whose source is n, in input order, and nothing else |
| `DenseGraph.AdjListComplete` | src/lib/routes.rs:88-94 | every input edge appears in the row of its source, pointing at its destination label's index with its cost |
| `DenseGraph.AdjListSound` | src/lib/routes.rs:88-94 | every entry of row n comes from an input edge that goes from label n to the label of the entry's target, with the entry's cost, and the target is a valid node |
| `DenseGraph.SampleGraph` | src/lib/routes.rs:103-109 | on the fixture edge list, the node count is 5, the nodes are A..E at 0..4, and the source, destination and adjacency lists take their concrete values |
| `Agreement.NodesAgree` | src/lib/trajectory.rs:74-92 | for the same edges, the node list of the route collection is the graph's label table, so graph indices name the collection's labels |

## Left out

- `Display` for both route types (src/lib/route.rs:44-52, src/lib/mod.rs:24-32) is string formatting only. Its message names the source after "to" and the destination after "from".
- The benchmark harness and `reconstruct_path`, and the shortest-distance and simple-path engines the router builds on this layer, are not part of this model: none of their source is among the modelled files.
- `Trajectories::iter` is a borrowing iterator over the held routes. The model reads the `routes` field directly.
- `Trajectories::from_routes_tuples` unwraps each `from_tuple` result and aborts on an invalid tuple. `TrajectoryStore.Trajectories.FromRoutesTuples` therefore requires every tuple to be valid instead of modelling the abort.
- The `&mut Vec<Route>` argument of `append` is not shared state in the model. `Append` and `AppendUnique` return what is left of it (`remaining`): empty after a successful drain, unchanged after a failure.
- `HashSet` hashing and `&str` lifetimes are modelled as mathematical sets and string constants.
- `Routes<D, N>` is generic in the cost and label types. Only the instance the source builds, `usize` costs and `String` labels, is modelled.
- `Vec::sort` is a library call. `Labels.SortLabels` stands for it with an insertion sort, specified only by what any correct sort ensures: sorted and a permutation. Stability plays no part, since the labels it sorts are distinct.

## Findings

| source | as written | input that shows it | evidently intended | confidence | as-written member | corrected member |
|---|---|---|---|---|---|---|
| src/lib/trajectory.rs:34-39 | `append` checks each incoming route only against the routes already held, not against the other incoming routes | appending `X->Y(1)` and `X->Y(2)` to the five fixture routes succeeds and leaves two routes with the pair (X, Y) | no repeated (source, destination) pair after `append`, as `new` enforces with the same error message | medium, not executed | `TrajectoryStore.Trajectories.Append`, `TrajectoryStore.AppendAdmitsRepetition` | `TrajectoryStore.Trajectories.AppendUnique` |
