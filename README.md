# PathFinder: a verified model of the route graph

This project models the path finder of the navigation app: the class that
turns the drawn paths of a GeoJSON FeatureCollection into a weighted,
bidirectional graph, snaps arbitrary points to the nearest node, and asks an
A* search for a route between them.

- `geo.dfy` (module `Geo`): coordinates, the distance used for weights and
  the heuristic, and the node id `x,y` that `Array.join(',')` prints.
- `geojson.dfy` (module `GeoJson`): features and geometries, the consecutive
  coordinate pairs a rebuild visits, and which coordinates they touch.
- `ngraph.dfy` (module `NGraph`): the graph container as a class `Graph`
  (node ids in insertion order, node data, directed weighted links) with the
  three operations the path finder calls: `Clear`, `AddNode`, `AddLink`.
- `graph_model.dfy` (module `GraphModel`): what a rebuild produces
  (`Build`), which node the nearest-node scan picks (`Nearest`), and the
  cost and heuristic the armed search uses, with their properties.
- `pathfinder.dfy` (module `PathFinding`): the class `PathFinder` itself,
  with the fields `graph` and `searcher` (`this.pathFinder`), and the
  methods `BuildGraph`, `FindNearestNode` and `FindPath`. Each one is
  proved against the functions of `GraphModel`.
- `scenarios.dfy` (module `Scenarios`): two worked instances.

The search is a parameter of `FindPath`. It is assumed only to answer with
ids of nodes of the graph. The route is the node data in the order the
search gives. No reversal is applied, whatever the comment at
src/features/graph/PathFinder.js:72 says. `ReverseWalk` shows that reading
a walk backwards gives a walk of the same cost, so the order does not
change which line is drawn.

## Model

| member | source | states |
|---|---|---|
| Geo.DistanceZeroIffEqual | src/features/graph/PathFinder.js:34 | the distance between two points is zero exactly when they are the same point |
| Geo.DistanceSymmetric | src/features/graph/PathFinder.js:34-36 | distance(from, to) equals distance(to, from), so one weight serves both directions |
| Geo.TriangleInequality | src/features/graph/PathFinder.js:45-50 | distance(a, c) is at most distance(a, b) + distance(b, c); the heuristic relies on this |
| Geo.ParseNatRoundTrip | src/features/graph/PathFinder.js:26-27 | reading back the printed decimal digits of a number gives the number |
| Geo.KeyInjective | src/features/graph/PathFinder.js:26-27 | two coordinates get the same comma-joined id exactly when they are equal (both directions) |
| Geo.KeyNonEmpty | src/features/graph/PathFinder.js:26-27 | no coordinate's id is the empty string |
| GeoJson.SegmentVisited | src/features/graph/PathFinder.js:22-24 | for every LineString and every i < length - 1, the pair (coords[i], coords[i + 1]) is among the visited pairs |
| GeoJson.NonContributingIgnored | src/features/graph/PathFinder.js:19-22 | dropping every non-LineString feature and every LineString of fewer than two coordinates leaves the visited pairs unchanged |
| GeoJson.SegmentOrigin | src/features/graph/PathFinder.js:18-24 | a pair is visited exactly when it is consecutive in some LineString of the input |
| GeoJson.EndpointsOnChain | src/features/graph/PathFinder.js:18-31 | the coordinates touched by visited pairs are exactly the coordinates of LineStrings with at least two points |
| NGraph.WithNodeKeepsConsistent | src/features/graph/PathFinder.js:29-31 | adding a node keeps ids distinct and listed; the node then has the given data; the id count grows by one only for a new id |
| NGraph.Graph.constructor | src/features/graph/PathFinder.js:7 | a new graph is empty |
| NGraph.Graph.Clear | src/features/graph/PathFinder.js:16 | after clearing, the graph has no nodes and no links |
| NGraph.Graph.AddNode | src/features/graph/PathFinder.js:30-31 | a repeated id keeps its place and only its data changes; a new id goes at the end of the iteration order |
| NGraph.Graph.AddLink | src/features/graph/PathFinder.js:35-36 | the directed link with its weight is added and nothing else changes |
| GraphModel.BuildWellFormed | src/features/graph/PathFinder.js:15-39 | every rebuilt graph is well formed: ids are distinct and are the keys of their own data; each link joins two nodes, weighs the distance between their data, and has a reverse link of equal weight |
| GraphModel.BuildNodes | src/features/graph/PathFinder.js:16-31 | after a rebuild, the node `x,y` exists exactly when (x, y) lies on a LineString of the current input with two or more points, and its data is (x, y); nothing from an earlier build remains; the node count is the number of distinct coordinates among the pairs |
| GraphModel.BuildLinks | src/features/graph/PathFinder.js:16-36 | a link is in the rebuilt graph exactly when it is the forward or backward link of a visited pair, weighted by that pair's distance |
| GraphModel.BuildLinksBothWays | src/features/graph/PathFinder.js:34-36 | for each consecutive pair (from, to), both from→to and to→from are present with weight distance(from, to) |
| GraphModel.BuildIgnoresOtherFeatures | src/features/graph/PathFinder.js:19-22 | the graph built from the input equals the one built from its LineStrings of two or more points alone |
| GraphModel.ScanBestIsFirstClosest | src/features/graph/PathFinder.js:80-86 | after scanning the first n nodes, the kept node is no farther than any of them and strictly closer than every node before it |
| GraphModel.NearestIsFirstClosest | src/features/graph/PathFinder.js:76-88 | no node is returned exactly when the graph has no nodes; otherwise node k is returned exactly when it is at the smallest distance and strictly closer than all nodes visited before it |
| GraphModel.NearestInGraph | src/features/graph/PathFinder.js:76-88 | a node is returned exactly when there are nodes, and it is a node of the graph |
| GraphModel.HeuristicConsistent | src/features/graph/PathFinder.js:41-51 | along any link of a rebuilt graph, the heuristic drops by at most the link's cost |
| GraphModel.HeuristicAdmissible | src/features/graph/PathFinder.js:41-51 | the heuristic never exceeds the cost of any walk to the goal |
| GraphModel.ReverseWalk | src/features/graph/PathFinder.js:35-36 | since every link has an equal-weight reverse link, a walk read backwards is a walk from the goal to the start of the same cost; so returning the search's nodes unreversed (lines 72-73) draws the same route |
| PathFinding.PathFinder.constructor | src/features/graph/PathFinder.js:6-9 | a new path finder has an empty graph and no searcher |
| PathFinding.PathFinder.BuildGraph | src/features/graph/PathFinder.js:15-54 | the graph becomes `Build(features)` (nothing of its earlier contents survives), the class invariant holds, and the searcher is armed over this graph with the stored link weight as edge cost and the distance between the two nodes' (x, y) as heuristic |
| PathFinding.PathFinder.ArmedHeuristicConsistent | src/features/graph/PathFinder.js:41-51 | with the cost and heuristic the searcher was armed with, the heuristic towards any goal drops by at most the cost of any link of the graph |
| PathFinding.PathFinder.AddPair | src/features/graph/PathFinder.js:23-36 | one pass adds both nodes under their ids, then the forward and the backward link with the same distance weight |
| PathFinding.PathFinder.FindNearestNode | src/features/graph/PathFinder.js:76-88 | returns none exactly when the graph has no nodes; otherwise it returns node k exactly when k is the first node at the smallest distance; the result equals `Nearest` |
| PathFinding.PathFinder.FindPath | src/features/graph/PathFinder.js:62-74 | returns [] when no searcher is armed or the graph has no nodes; otherwise it returns as many points as the search returns ids for the two nearest nodes, point i being the data of id i, with no reordering |
| PathFinding.PathFinder.NodeIdsNotEmpty | src/features/graph/PathFinder.js:68 | node ids are never the empty string, so `!startNodeId` and `!endNodeId` only catch a missing nearest node |
| Scenarios.ClosedLineStringBuild | src/features/graph/PathFinder.js:18-36 | the path (0,0)→(1,0)→(0,0) next to a Point builds nodes `0,0` and `1,0` in that order, with their data and a link each way of weight 1 |
| Scenarios.NearestTieGoesToFirst | src/features/graph/PathFinder.js:80-86 | for a query equally far from nodes `2,0` and `0,0`, the node visited first, `2,0`, is returned |

## Left out

- Distance: `turf.distance` is a floating-point haversine distance. The model uses integer coordinates and the Manhattan distance. That is a metric like the original (non-negative, symmetric, zero only between equal points, triangle inequality), and the same function gives both the link weights and the heuristic, as in the source. Geodesy and rounding are not modelled.
- Coordinates are pairs of integers. Positions with a third component (altitude) would print a three-part id, and the model does not cover them. Nor does it cover `-0` printing as `0`, or the printing of non-integer numbers.
- The A* search of `ngraph.path` is not modelled. Its result reaches `FindPath` as the parameter `find`, and the only thing assumed of it is that it answers with ids of nodes of the graph. Optimality and path validity are not claimed. The search returns node objects, and the model returns their ids and reads their data from the graph.
- The searcher records the graph, the cost function and the heuristic it was armed with; how `ngraph.path` uses them is not modelled.
- NGraph.Graph.AddLink: it requires both endpoints to exist, and `ngraph.graph` would create missing ones. The path finder always adds both nodes first, so this case never arises.
- NGraph.Graph.AddLink: it appends a link on every call. `ngraph.graph` may keep a single link per ordered pair of ids. Every property here is stated about link membership, and none about link counts.
- `forEachNode` is taken to visit nodes in the order of their first `addNode`. This is the insertion order of the library's node map.
- The `console.log` at src/features/graph/PathFinder.js:53 is output only.
- The shared instance exported at src/features/graph/PathFinder.js:91 is not modelled.
- src/features/map/MapCanvas.jsx, src/App.jsx and src/components/UploadControl.jsx are map rendering, React state and browser file input around the core. They are not part of this model. This includes the guard in src/App.jsx:17-19 that skips rebuilding for an empty feature list.
- Feature properties are dropped. Geometry types other than LineString and Point are kept only by name, a name that is never "LineString" or "Point".
