/** What a rebuild produces from its input, the nearest-node choice, and the
    cost and heuristic the armed search uses, stated as functions on graph
    contents, with the properties the path finder relies on. */
module GraphModel {
  import opened Wrappers
  import opened Geo
  import opened GeoJson
  import opened NGraph

  // ---------------------------------------------------------------------
  // Rebuild
  // ---------------------------------------------------------------------

  /** The links one pair adds: from→to and to→from, with the same weight. */
  function Forward(s: Segment): Link { Link(Key(s.from), Key(s.to), Distance(s.from, s.to)) }
  function Backward(s: Segment): Link { Link(Key(s.to), Key(s.from), Distance(s.from, s.to)) }

  /** One pass of the inner loop body: both nodes, then both links. */
  function AddSegment(g: Snapshot, s: Segment): Snapshot
  {
    var fromId, toId := Key(s.from), Key(s.to);
    var distance := Distance(s.from, s.to);
    var g1 := WithNode(WithNode(g, fromId, s.from), toId, s.to);
    WithLink(WithLink(g1, fromId, toId, distance), toId, fromId, distance)
  }

  function AddSegments(g: Snapshot, ss: seq<Segment>): Snapshot
  {
    if ss == [] then g else AddSegment(AddSegments(g, ss[..|ss| - 1]), ss[|ss| - 1])
  }

  /** The graph a rebuild from `fs` leaves behind: a cleared graph with every
      pair of every LineString added in order. */
  function Build(fs: seq<Feature>): Snapshot
  {
    AddSegments(Empty, AllSegments(fs))
  }

  lemma AddSegmentsAppend(g: Snapshot, ss: seq<Segment>, s: Segment)
    ensures AddSegments(g, ss + [s]) == AddSegment(AddSegments(g, ss), s)
  {
    assert (ss + [s])[..|ss|] == ss;
  }

  /** A link that one of the pairs accounts for. */
  ghost predicate LinkOfSegments(ss: seq<Segment>, l: Link)
  {
    exists i :: 0 <= i < |ss| && (l == Forward(ss[i]) || l == Backward(ss[i]))
  }

  /** Every node is stored under the key of its own data. */
  ghost predicate SelfKeyed(data: map<string, Coord>)
  {
    forall id :: id in data ==> Key(data[id]) == id
  }

  /** The data of the nodes are exactly the coordinates of `cs`. */
  ghost predicate HoldsExactly(data: map<string, Coord>, cs: set<Coord>)
  {
    && (forall id :: id in data ==> data[id] in cs)
    && (forall c :: c in cs ==> Key(c) in data)
  }

  /** The nodes are exactly the keys of the coordinates in `cs`, each node's
      data is its coordinate, and there is one node per coordinate. */
  ghost predicate NodesAre(ids: seq<string>, data: map<string, Coord>, cs: set<Coord>)
  {
    Distinct(ids) && Listed(ids, data) && SelfKeyed(data) && HoldsExactly(data, cs) && |ids| == |cs|
  }

  lemma AddKnownNode(g: Snapshot, cs: set<Coord>, c: Coord)
    requires Listed(g.ids, g.data) && SelfKeyed(g.data) && Key(c) in g.data
    ensures WithNode(g, Key(c), c).ids == g.ids && WithNode(g, Key(c), c).data == g.data
    ensures HoldsExactly(g.data, cs) ==> c in cs && cs + {c} == cs
  {
    KeyInjective(g.data[Key(c)], c);
  }

  lemma AddNewNode(g: Snapshot, cs: set<Coord>, c: Coord)
    requires NodesAre(g.ids, g.data, cs) && Key(c) !in g.data
    ensures NodesAre(g.ids + [Key(c)], g.data[Key(c) := c], cs + {c})
  {
    assert c !in cs;
    assert Key(c) !in g.ids;
    assert |cs + {c}| == |cs| + 1;
  }

  /** Adding a node for `c` keeps one node per distinct coordinate. */
  lemma AddNodeStep(g: Snapshot, cs: set<Coord>, c: Coord)
    requires NodesAre(g.ids, g.data, cs)
    ensures NodesAre(WithNode(g, Key(c), c).ids, WithNode(g, Key(c), c).data, cs + {c})
  {
    if Key(c) in g.data {
      AddKnownNode(g, cs, c);
    } else {
      AddNewNode(g, cs, c);
    }
  }

  /** The links are exactly the two directions of the pairs in `ss`. */
  ghost predicate LinksAre(links: seq<Link>, ss: seq<Segment>)
  {
    forall l :: l in links <==> LinkOfSegments(ss, l)
  }

  lemma AddSegmentNodes(g: Snapshot, cs: set<Coord>, s: Segment)
    requires NodesAre(g.ids, g.data, cs)
    ensures NodesAre(AddSegment(g, s).ids, AddSegment(g, s).data, cs + {s.from, s.to})
  {
    var g1 := WithNode(g, Key(s.from), s.from);
    var g2 := WithNode(g1, Key(s.to), s.to);
    AddNodeStep(g, cs, s.from);
    AddNodeStep(g1, cs + {s.from}, s.to);
    assert cs + {s.from} + {s.to} == cs + {s.from, s.to};
    assert AddSegment(g, s).ids == g2.ids && AddSegment(g, s).data == g2.data;
  }

  lemma AddSegmentLinks(g: Snapshot, ss: seq<Segment>, s: Segment)
    requires LinksAre(g.links, ss)
    ensures LinksAre(AddSegment(g, s).links, ss + [s])
  {
    var links' := AddSegment(g, s).links;
    var ss' := ss + [s];
    assert links' == g.links + [Forward(s), Backward(s)];
    forall l ensures l in links' <==> LinkOfSegments(ss', l) {
      if LinkOfSegments(ss, l) {
        var i :| 0 <= i < |ss| && (l == Forward(ss[i]) || l == Backward(ss[i]));
        assert ss'[i] == ss[i];
      }
      if LinkOfSegments(ss', l) {
        var i :| 0 <= i < |ss'| && (l == Forward(ss'[i]) || l == Backward(ss'[i]));
        if i < |ss| {
          assert ss[i] == ss'[i];
        }
      }
      assert ss'[|ss|] == s;
    }
  }

  lemma {:induction false} AddSegmentsShape(ss: seq<Segment>)
    ensures NodesAre(AddSegments(Empty, ss).ids, AddSegments(Empty, ss).data, Endpoints(ss))
    ensures LinksAre(AddSegments(Empty, ss).links, ss)
  {
    if ss != [] {
      var init, s := ss[..|ss| - 1], ss[|ss| - 1];
      assert init + [s] == ss;
      var g := AddSegments(Empty, init);
      assert AddSegments(Empty, ss) == AddSegment(g, s);
      assert Endpoints(ss) == Endpoints(init) + {s.from, s.to};
      AddSegmentsShape(init);
      AddSegmentNodes(g, Endpoints(init), s);
      AddSegmentLinks(g, init, s);
    }
  }

  /** Each link weighs the distance between the data of its endpoints. */
  ghost predicate WeightsAreDistances(g: Snapshot)
  {
    forall l :: l in g.links ==>
      l.fromId in g.data && l.toId in g.data && l.weight == Distance(g.data[l.fromId], g.data[l.toId])
  }

  /** Each link has a reverse link of the same weight. */
  ghost predicate Bidirectional(links: seq<Link>)
  {
    forall l :: l in links ==> Flip(l) in links
  }

  /** The invariant every graph the path finder holds satisfies: node ids
      are keys of their own data, each link weighs the distance between its
      endpoints, and each link has a reverse link of the same weight. */
  ghost predicate WellFormed(g: Snapshot)
  {
    Consistent(g) && SelfKeyed(g.data) && WeightsAreDistances(g) && Bidirectional(g.links)
  }

  lemma SegmentsBidirectional(links: seq<Link>, ss: seq<Segment>)
    requires LinksAre(links, ss)
    ensures Bidirectional(links)
  {
    forall l | l in links ensures Flip(l) in links {
      var i :| 0 <= i < |ss| && (l == Forward(ss[i]) || l == Backward(ss[i]));
      assert LinkOfSegments(ss, Flip(l));
    }
  }

  lemma SegmentsWeighted(g: Snapshot, ss: seq<Segment>)
    requires NodesAre(g.ids, g.data, Endpoints(ss)) && LinksAre(g.links, ss)
    ensures WeightsAreDistances(g)
  {
    forall l | l in g.links
      ensures l.fromId in g.data && l.toId in g.data
      ensures l.weight == Distance(g.data[l.fromId], g.data[l.toId])
    {
      var i :| 0 <= i < |ss| && (l == Forward(ss[i]) || l == Backward(ss[i]));
      var s := ss[i];
      EndpointOf(ss, s.from);
      EndpointOf(ss, s.to);
      KeyInjective(g.data[Key(s.from)], s.from);
      KeyInjective(g.data[Key(s.to)], s.to);
      DistanceSymmetric(s.from, s.to);
    }
  }

  lemma BuildWellFormed(fs: seq<Feature>)
    ensures WellFormed(Build(fs))
  {
    var ss := AllSegments(fs);
    var g := Build(fs);
    AddSegmentsShape(ss);
    SegmentsBidirectional(g.links, ss);
    SegmentsWeighted(g, ss);
  }

  /** The nodes after a rebuild are exactly the coordinates of the current
      input's LineStrings (of two or more points), one node per distinct
      coordinate, under the id `x,y` and with data (x, y). Nothing of any
      earlier build survives. */
  lemma NodeLookup(ids: seq<string>, data: map<string, Coord>, cs: set<Coord>, c: Coord)
    requires NodesAre(ids, data, cs)
    ensures Key(c) in data <==> c in cs
    ensures Key(c) in data ==> data[Key(c)] == c
  {
    if Key(c) in data {
      KeyInjective(data[Key(c)], c);
    }
  }

  lemma BuildNodes(fs: seq<Feature>)
    ensures forall c :: Key(c) in Build(fs).data <==> OnChain(fs, c)
    ensures forall c :: Key(c) in Build(fs).data ==> Build(fs).data[Key(c)] == c
    ensures forall id :: id in Build(fs).data ==> Key(Build(fs).data[id]) == id
    ensures |Build(fs).ids| == |Endpoints(AllSegments(fs))|
  {
    var ss := AllSegments(fs);
    var g := Build(fs);
    AddSegmentsShape(ss);
    forall c
      ensures Key(c) in g.data <==> OnChain(fs, c)
      ensures Key(c) in g.data ==> g.data[Key(c)] == c
    {
      NodeLookup(g.ids, g.data, Endpoints(ss), c);
      EndpointsOnChain(fs, c);
    }
  }

  /** The links after a rebuild are exactly the two directions of every
      consecutive pair of the current input's LineStrings, each weighing the
      distance between the pair. */
  lemma BuildLinks(fs: seq<Feature>, l: Link)
    ensures l in Build(fs).links <==>
      exists k, i, s :: SegmentOf(fs, k, i, s) && (l == Forward(s) || l == Backward(s))
  {
    var ss := AllSegments(fs);
    AddSegmentsShape(ss);
    if l in Build(fs).links {
      var i :| 0 <= i < |ss| && (l == Forward(ss[i]) || l == Backward(ss[i]));
      SegmentOrigin(fs, ss[i]);
      var k, j :| SegmentOf(fs, k, j, ss[i]);
      assert SegmentOf(fs, k, j, ss[i]) && (l == Forward(ss[i]) || l == Backward(ss[i]));
    }
    if exists k, i, s :: SegmentOf(fs, k, i, s) && (l == Forward(s) || l == Backward(s)) {
      var k, i, s :| SegmentOf(fs, k, i, s) && (l == Forward(s) || l == Backward(s));
      SegmentOrigin(fs, s);
      var j :| 0 <= j < |ss| && ss[j] == s;
      assert LinkOfSegments(ss, l);
    }
  }

  /** Each consecutive pair (from, to) yields a link from→to and a link to→from,
      both weighing distance(from, to). */
  lemma BuildLinksBothWays(fs: seq<Feature>, k: int, i: int)
    requires 0 <= k < |fs| && fs[k].geometry.LineString?
    requires 0 <= i < |fs[k].geometry.coordinates| - 1
    ensures var from, to := fs[k].geometry.coordinates[i], fs[k].geometry.coordinates[i + 1];
      && Link(Key(from), Key(to), Distance(from, to)) in Build(fs).links
      && Link(Key(to), Key(from), Distance(from, to)) in Build(fs).links
  {
    var s := Segment(fs[k].geometry.coordinates[i], fs[k].geometry.coordinates[i + 1]);
    assert SegmentOf(fs, k, i, s);
    BuildLinks(fs, Forward(s));
    BuildLinks(fs, Backward(s));
  }

  /** Only LineStrings of two or more coordinates shape the graph. */
  lemma BuildIgnoresOtherFeatures(fs: seq<Feature>)
    ensures Build(fs) == Build(ContributingOnly(fs))
  {
    NonContributingIgnored(fs);
  }

  // ---------------------------------------------------------------------
  // Nearest node
  // ---------------------------------------------------------------------

  ghost predicate NodesHaveData(g: Snapshot)
  {
    forall j :: 0 <= j < |g.ids| ==> g.ids[j] in g.data
  }

  lemma ListedHaveData(g: Snapshot)
    requires Listed(g.ids, g.data)
    ensures NodesHaveData(g)
  {
    forall j | 0 <= j < |g.ids| ensures g.ids[j] in g.data {
      assert g.ids[j] in g.ids;
    }
  }

  /** Distance from the query to the j-th node in iteration order. */
  function NodeDistance(g: Snapshot, q: Coord, j: nat): nat
    requires NodesHaveData(g) && j < |g.ids|
  {
    Distance(q, g.data[g.ids[j]])
  }

  /** The scan over the first n nodes: index of the node kept, which changes
      only on a strictly smaller distance. */
  function ScanBest(g: Snapshot, q: Coord, n: nat): (k: nat)
    requires NodesHaveData(g) && 0 < n <= |g.ids|
    ensures k < n
  {
    if n == 1 then 0
    else
      var k := ScanBest(g, q, n - 1);
      if NodeDistance(g, q, n - 1) < NodeDistance(g, q, k) then n - 1 else k
  }

  /** The id `findNearestNode` returns; None stands for null. */
  function Nearest(g: Snapshot, q: Coord): Option<string>
    requires NodesHaveData(g)
  {
    if |g.ids| == 0 then None else Some(g.ids[ScanBest(g, q, |g.ids|)])
  }

  /** Node k is at least as close as every node, and strictly closer than every
      node visited before it. */
  ghost predicate FirstClosest(g: Snapshot, q: Coord, k: nat)
    requires NodesHaveData(g)
  {
    && k < |g.ids|
    && (forall j :: 0 <= j < |g.ids| ==> NodeDistance(g, q, k) <= NodeDistance(g, q, j))
    && (forall j :: 0 <= j < k ==> NodeDistance(g, q, k) < NodeDistance(g, q, j))
  }

  lemma {:induction false} ScanBestIsFirstClosest(g: Snapshot, q: Coord, n: nat)
    requires NodesHaveData(g) && 0 < n <= |g.ids|
    ensures var k := ScanBest(g, q, n);
      && (forall j :: 0 <= j < n ==> NodeDistance(g, q, k) <= NodeDistance(g, q, j))
      && (forall j :: 0 <= j < k ==> NodeDistance(g, q, k) < NodeDistance(g, q, j))
  {
    if n > 1 {
      ScanBestIsFirstClosest(g, q, n - 1);
    }
  }

  lemma FirstClosestUnique(g: Snapshot, q: Coord, k: nat, k': nat)
    requires NodesHaveData(g) && FirstClosest(g, q, k) && FirstClosest(g, q, k')
    ensures k == k'
  {
    assert NodeDistance(g, q, k) <= NodeDistance(g, q, k');
    assert NodeDistance(g, q, k') <= NodeDistance(g, q, k);
  }

  /** No node is returned exactly when the graph has no nodes; otherwise the
      returned id is that of the node at index k, for k the first node at the
      smallest distance (both directions). */
  lemma NearestIsFirstClosest(g: Snapshot, q: Coord)
    requires Consistent(g)
    ensures NodesHaveData(g)
    ensures Nearest(g, q).None? <==> |g.ids| == 0
    ensures forall k :: 0 <= k < |g.ids| ==> (Nearest(g, q) == Some(g.ids[k]) <==> FirstClosest(g, q, k))
  {
    ListedHaveData(g);
    if |g.ids| > 0 {
      var b := ScanBest(g, q, |g.ids|);
      ScanBestIsFirstClosest(g, q, |g.ids|);
      forall k | 0 <= k < |g.ids|
        ensures Nearest(g, q) == Some(g.ids[k]) <==> FirstClosest(g, q, k)
      {
        if FirstClosest(g, q, k) {
          FirstClosestUnique(g, q, k, b);
        }
      }
    }
  }

  /** On a consistent graph some node is returned exactly when there are
      nodes, and the node returned has data. */
  lemma NearestInGraph(g: Snapshot, q: Coord)
    requires Consistent(g)
    ensures NodesHaveData(g)
    ensures Nearest(g, q).Some? <==> |g.ids| > 0
    ensures Nearest(g, q).Some? ==> Nearest(g, q).value in g.data
  {
    if |g.ids| > 0 {
      assert g.ids[ScanBest(g, q, |g.ids|)] in g.ids;
    }
  }

  // ---------------------------------------------------------------------
  // The armed search: edge cost and heuristic
  // ---------------------------------------------------------------------

  /** Cost of traversing a link: its stored weight. */
  function EdgeCost(l: Link): nat { l.weight }

  /** Estimate from one node to another: the distance between their data. */
  function Heuristic(g: Snapshot, fromId: string, toId: string): nat
    requires fromId in g.data && toId in g.data
  {
    Distance(g.data[fromId], g.data[toId])
  }

  /** The heuristic never drops by more than the cost of a link. */
  lemma HeuristicConsistent(g: Snapshot, l: Link, goal: string)
    requires WellFormed(g) && l in g.links && goal in g.data
    ensures Heuristic(g, l.fromId, goal) <= EdgeCost(l) + Heuristic(g, l.toId, goal)
  {
    TriangleInequality(g.data[l.fromId], g.data[l.toId], g.data[goal]);
  }

  /** A sequence of links of g, each starting where the previous one ends,
      leading from `a` to `b`. */
  ghost predicate IsWalk(g: Snapshot, w: seq<Link>, a: string, b: string)
  {
    && (w == [] ==> a == b)
    && (w != [] ==> w[0].fromId == a && w[|w| - 1].toId == b)
    && (forall i :: 0 <= i < |w| ==> w[i] in g.links)
    && (forall i :: 0 <= i < |w| - 1 ==> w[i].toId == w[i + 1].fromId)
  }

  function WalkCost(w: seq<Link>): nat
  {
    if w == [] then 0 else EdgeCost(w[0]) + WalkCost(w[1..])
  }

  /** The heuristic never overestimates the cost of any walk to the goal. */
  lemma {:induction false} HeuristicAdmissible(g: Snapshot, w: seq<Link>, a: string, goal: string)
    requires WellFormed(g) && a in g.data && goal in g.data && IsWalk(g, w, a, goal)
    ensures Heuristic(g, a, goal) <= WalkCost(w)
  {
    if w != [] {
      var l := w[0];
      assert l in g.links;
      assert IsWalk(g, w[1..], l.toId, goal);
      HeuristicAdmissible(g, w[1..], l.toId, goal);
      HeuristicConsistent(g, l, goal);
    }
  }

  function Flip(l: Link): Link { Link(l.toId, l.fromId, l.weight) }

  /** The walk taken backwards, every link replaced by its reverse. */
  function Reversed(w: seq<Link>): (r: seq<Link>)
    ensures |r| == |w|
  {
    if w == [] then [] else Reversed(w[1..]) + [Flip(w[0])]
  }

  lemma {:induction false} ReversedAt(w: seq<Link>, i: int)
    requires 0 <= i < |w|
    ensures Reversed(w)[i] == Flip(w[|w| - 1 - i])
  {
    if i < |w| - 1 {
      ReversedAt(w[1..], i);
    }
  }

  lemma {:induction false} WalkCostAppend(w: seq<Link>, l: Link)
    ensures WalkCost(w + [l]) == WalkCost(w) + EdgeCost(l)
  {
    if w != [] {
      assert (w + [l])[1..] == w[1..] + [l];
      WalkCostAppend(w[1..], l);
    }
  }

  lemma {:induction false} ReversedCost(w: seq<Link>)
    ensures WalkCost(Reversed(w)) == WalkCost(w)
  {
    if w != [] {
      ReversedCost(w[1..]);
      WalkCostAppend(Reversed(w[1..]), Flip(w[0]));
    }
  }

  /** Because every link has an equal-weight reverse, every walk from a to b
      gives a walk from b to a of the same cost: the cheapest route cost is the
      same in both directions. */
  lemma ReverseWalk(g: Snapshot, w: seq<Link>, a: string, b: string)
    requires Bidirectional(g.links) && IsWalk(g, w, a, b)
    ensures IsWalk(g, Reversed(w), b, a) && WalkCost(Reversed(w)) == WalkCost(w)
  {
    var r := Reversed(w);
    forall i | 0 <= i < |r| ensures r[i] in g.links {
      ReversedAt(w, i);
      assert w[|w| - 1 - i] in g.links;
    }
    forall i | 0 <= i < |r| - 1 ensures r[i].toId == r[i + 1].fromId {
      ReversedAt(w, i);
      ReversedAt(w, i + 1);
    }
    if w != [] {
      ReversedAt(w, 0);
      ReversedAt(w, |w| - 1);
    }
    ReversedCost(w);
  }
}
