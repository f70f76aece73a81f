/** The path finder: a graph rebuilt from the drawn paths, nearest-node
    snapping, and a route query that delegates the search itself to an A*
    searcher armed over the graph. */
module PathFinding {
  import opened Wrappers
  import opened Geo
  import opened GeoJson
  import opened NGraph
  import opened GraphModel

  /** The A* searcher armed over a graph: the graph it searches, the cost of
      traversing a link, and the heuristic, applied to the data (x, y) of two
      nodes. Its search is not modelled and reaches the path finder as the
      `find` parameter of `FindPath`. */
  datatype AStar = AStar(graph: Graph, cost: Link -> nat, heuristic: (Coord, Coord) -> nat)

  /** The only thing assumed of the search: when asked about two nodes of the
      graph, it answers with ids of nodes of that graph. */
  ghost predicate AnswersWithNodes(find: (string, string) -> seq<string>, g: Snapshot)
  {
    forall a, b, id :: a in g.data && b in g.data && id in find(a, b) ==> id in g.data
  }

  /** JavaScript truthiness of a node id: null and "" are falsy. */
  predicate Falsy(id: Option<string>)
  {
    id.None? || id.value == ""
  }

  // Bookkeeping for the loops of `BuildGraph`: each pass adds the next pair.

  lemma ChainStep(done: seq<Segment>, coords: seq<Coord>, i: nat)
    requires i < |coords| - 1
    ensures AddSegments(Empty, done + ChainSegments(coords)[..i + 1])
         == AddSegment(AddSegments(Empty, done + ChainSegments(coords)[..i]), Segment(coords[i], coords[i + 1]))
  {
    var chain := ChainSegments(coords);
    assert done + chain[..i + 1] == (done + chain[..i]) + [chain[i]];
    AddSegmentsAppend(Empty, done + chain[..i], chain[i]);
  }

  lemma ChainEnd(done: seq<Segment>, coords: seq<Coord>, i: nat)
    requires i <= |coords| - 1 || i == 0
    requires i >= |coords| - 1
    ensures done + ChainSegments(coords)[..i] == done + ChainSegments(coords)
  {
    assert ChainSegments(coords)[..i] == ChainSegments(coords);
  }

  lemma FeatureStep(fs: seq<Feature>, k: nat)
    requires k < |fs|
    ensures AllSegments(fs[..k + 1]) == AllSegments(fs[..k]) + FeatureSegments(fs[k])
  {
    assert fs[..k + 1] == fs[..k] + [fs[k]];
    AllSegmentsAppend(fs[..k], fs[k]);
  }

  class PathFinder {
    const graph: Graph
    /** `this.pathFinder`: None until the first rebuild. */
    var searcher: Option<AStar>

    /** The graph is well formed (ids are keys of their data, weights are
        distances, links come in pairs), the searcher is armed over this
        graph with the stored weight as cost and the distance between node
        data as heuristic, and before the first rebuild the graph is empty. */
    ghost predicate Valid()
      reads this, graph
    {
      && graph.Valid()
      && WellFormed(graph.State())
      && (searcher.Some? ==> searcher.value == AStar(graph, EdgeCost, Distance))
      && (searcher.None? ==> graph.State() == Empty)
    }

    constructor ()
      ensures Valid() && fresh(graph)
      ensures graph.State() == Empty && searcher == None
    {
      graph := new Graph();
      searcher := None;
    }

    /** Clears the graph, adds both nodes and both links of every consecutive
        pair of every LineString, and arms a new searcher. The new graph
        depends on `features` alone. */
    method BuildGraph(features: seq<Feature>)
      requires graph.Valid()
      modifies this, graph
      ensures Valid()
      ensures graph.State() == Build(features)
      ensures searcher == Some(AStar(graph, EdgeCost, Distance))
    {
      graph.Clear();
      for k := 0 to |features|
        invariant graph.Valid()
        invariant graph.State() == AddSegments(Empty, AllSegments(features[..k]))
      {
        var feature := features[k];
        ghost var done := AllSegments(features[..k]);
        if feature.geometry.LineString? {
          var coords := feature.geometry.coordinates;
          var i := 0;
          assert done + ChainSegments(coords)[..0] == done;
          while i < |coords| - 1
            invariant i <= |coords| - 1 || i == 0
            invariant graph.Valid()
            invariant graph.State() == AddSegments(Empty, done + ChainSegments(coords)[..i])
          {
            AddPair(coords[i], coords[i + 1]);
            ChainStep(done, coords, i);
            i := i + 1;
          }
          ChainEnd(done, coords, i);
        } else {
          assert done + FeatureSegments(feature) == done;
        }
        FeatureStep(features, k);
      }
      assert features[..|features|] == features;
      BuildWellFormed(features);
      searcher := Some(AStar(graph, EdgeCost, Distance));
    }

    /** One pass of the inner loop of `BuildGraph`: both nodes of the pair,
        keyed by their coordinates, then a link each way weighted by their
        distance. */
    method AddPair(from: Coord, to: Coord)
      requires graph.Valid()
      modifies graph
      ensures graph.Valid()
      ensures graph.State() == AddSegment(old(graph.State()), Segment(from, to))
    {
      var fromId, toId := Key(from), Key(to);
      graph.AddNode(fromId, from);
      graph.AddNode(toId, to);
      var distance := Distance(from, to);
      graph.AddLink(fromId, toId, distance);
      graph.AddLink(toId, fromId, distance);
    }

    /** Scans the nodes in iteration order and keeps the first one at the
        smallest distance from `coords`; None when there are no nodes. */
    method FindNearestNode(coords: Coord) returns (nearestId: Option<string>)
      requires graph.Valid()
      ensures NodesHaveData(graph.State())
      ensures nearestId == Nearest(graph.State(), coords)
      ensures nearestId.None? <==> |graph.ids| == 0
      ensures forall k {:trigger FirstClosest(graph.State(), coords, k)} :: 0 <= k < |graph.ids| ==>
                (nearestId == Some(graph.ids[k]) <==> FirstClosest(graph.State(), coords, k))
    {
      ghost var g := graph.State();
      assert NodesHaveData(g);
      nearestId := None;
      // `minDist` starts at Infinity; while no node is kept it is not read.
      var minDist: nat := 0;
      ghost var best: nat := 0;
      for j := 0 to |graph.ids|
        invariant j == 0 ==> nearestId == None
        invariant j > 0 ==> && best == ScanBest(g, coords, j)
                            && nearestId == Some(g.ids[best])
                            && minDist == NodeDistance(g, coords, best)
      {
        var node := graph.ids[j];
        var dist := Distance(coords, graph.data[node]);
        if nearestId.None? || dist < minDist {
          minDist := dist;
          nearestId := Some(node);
          best := j;
        }
      }
      NearestIsFirstClosest(g, coords);
    }

    /** Snaps both points to their nearest nodes, asks the search for a route
        between them and returns the data of the nodes it answers with, in the
        order given. Returns [] before the first rebuild and on a graph
        without nodes. */
    method FindPath(startCoords: Coord, endCoords: Coord, find: (string, string) -> seq<string>)
      returns (route: seq<Coord>)
      requires Valid()
      requires AnswersWithNodes(find, graph.State())
      ensures searcher.None? ==> route == []
      ensures |graph.ids| == 0 ==> route == []
      ensures searcher.Some? && |graph.ids| > 0 ==>
        && Nearest(graph.State(), startCoords).Some?
        && Nearest(graph.State(), endCoords).Some?
        && var path := find(Nearest(graph.State(), startCoords).value, Nearest(graph.State(), endCoords).value);
           && |route| == |path|
           && forall i :: 0 <= i < |path| ==> path[i] in graph.data && route[i] == graph.data[path[i]]
    {
      if searcher.None? {
        return [];
      }
      var startNodeId := FindNearestNode(startCoords);
      var endNodeId := FindNearestNode(endCoords);
      ghost var g := graph.State();
      NearestInGraph(g, startCoords);
      NearestInGraph(g, endCoords);
      if |graph.ids| == 0 {
        assert startNodeId.None?;
      } else {
        NodeIdsNotEmpty(startNodeId.value, endNodeId.value);
      }
      if Falsy(startNodeId) || Falsy(endNodeId) {
        return [];
      }
      var pathNodes := find(startNodeId.value, endNodeId.value);
      var data := graph.data;
      forall i | 0 <= i < |pathNodes|
        ensures pathNodes[i] in data
      {
        assert pathNodes[i] in find(startNodeId.value, endNodeId.value);
      }
      route := seq(|pathNodes|, i requires 0 <= i < |pathNodes| && pathNodes[i] in data => data[pathNodes[i]]);
    }

    /** The armed heuristic is consistent with the armed cost: along any link
        it drops by at most the link's cost, so A* may settle a node the
        first time it takes it from the queue. */
    lemma ArmedHeuristicConsistent(l: Link, goal: string)
      requires Valid() && searcher.Some? && l in graph.links && goal in graph.data
      ensures l.fromId in graph.data && l.toId in graph.data
      ensures var a := searcher.value;
        a.heuristic(graph.data[l.fromId], graph.data[goal])
          <= a.cost(l) + a.heuristic(graph.data[l.toId], graph.data[goal])
    {
      HeuristicConsistent(graph.State(), l, goal);
    }

    /** No node id is the empty string, so the truthiness guard of `FindPath`
        rejects exactly a missing nearest node. */
    lemma NodeIdsNotEmpty(a: string, b: string)
      requires Valid() && a in graph.data && b in graph.data
      ensures a != "" && b != ""
    {
      KeyNonEmpty(graph.data[a]);
      KeyNonEmpty(graph.data[b]);
    }
  }
}
