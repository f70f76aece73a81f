/** The graph container the path finder fills: node ids with their data, and
    directed weighted links. Only the operations the path finder calls are
    modelled. */
module NGraph {
  import opened Geo

  /** A directed link carrying its weight. */
  datatype Link = Link(fromId: string, toId: string, weight: nat)

  /** The contents of a graph: node ids in insertion order (the order in which
      `forEachNode` visits them), the data of each node, and the links. */
  datatype Snapshot = Snapshot(ids: seq<string>, data: map<string, Coord>, links: seq<Link>)

  const Empty: Snapshot := Snapshot([], map[], [])

  /** No id is listed twice. */
  ghost predicate Distinct(ids: seq<string>)
  {
    forall i, j :: 0 <= i < j < |ids| ==> ids[i] != ids[j]
  }

  /** The ids with data are exactly the listed ids. */
  ghost predicate Listed(ids: seq<string>, data: map<string, Coord>)
  {
    forall id :: id in data <==> id in ids
  }

  /** Every node id is listed once and has data; every link joins two nodes. */
  ghost predicate Consistent(g: Snapshot)
  {
    && Distinct(g.ids)
    && Listed(g.ids, g.data)
    && (forall l :: l in g.links ==> l.fromId in g.data && l.toId in g.data)
  }

  /** `addNode(id, data)`: a new id is appended to the node order; an existing
      id keeps its place and has its data replaced. */
  function WithNode(g: Snapshot, id: string, c: Coord): Snapshot
  {
    if id in g.data then Snapshot(g.ids, g.data[id := c], g.links)
    else Snapshot(g.ids + [id], g.data[id := c], g.links)
  }

  /** `addLink(fromId, toId, { weight })`: one more directed link. */
  function WithLink(g: Snapshot, fromId: string, toId: string, weight: nat): Snapshot
  {
    Snapshot(g.ids, g.data, g.links + [Link(fromId, toId, weight)])
  }

  lemma WithNodeKeepsConsistent(g: Snapshot, id: string, c: Coord)
    requires Consistent(g)
    ensures Consistent(WithNode(g, id, c))
    ensures id in WithNode(g, id, c).data && WithNode(g, id, c).data[id] == c
    ensures |WithNode(g, id, c).ids| == if id in g.data then |g.ids| else |g.ids| + 1
  {
  }

  class Graph {
    var ids: seq<string>
    var data: map<string, Coord>
    var links: seq<Link>

    function State(): Snapshot
      reads this
    {
      Snapshot(ids, data, links)
    }

    ghost predicate Valid()
      reads this
    {
      Consistent(State())
    }

    constructor ()
      ensures Valid() && State() == Empty
    {
      ids, data, links := [], map[], [];
    }

    /** `clear()`: drops every node and link. */
    method Clear()
      modifies this
      ensures Valid() && State() == Empty
    {
      ids, data, links := [], map[], [];
    }

    method AddNode(id: string, c: Coord)
      requires Valid()
      modifies this
      ensures Valid() && State() == WithNode(old(State()), id, c)
    {
      WithNodeKeepsConsistent(State(), id, c);
      if id !in data {
        ids := ids + [id];
      }
      data := data[id := c];
    }

    method AddLink(fromId: string, toId: string, weight: nat)
      requires Valid() && fromId in data && toId in data
      modifies this
      ensures Valid() && State() == WithLink(old(State()), fromId, toId, weight)
    {
      links := links + [Link(fromId, toId, weight)];
    }
  }
}
