/** Worked instances of a rebuild and of nearest-node snapping. */
module Scenarios {
  import opened Wrappers
  import opened Geo
  import opened GeoJson
  import opened NGraph
  import opened GraphModel

  /** A LineString of three coordinates followed by a Point builds its two
      pairs in order. */
  lemma ThreePointBuild(a: Coord, b: Coord, c: Coord, p: Coord)
    ensures Build([Feature(LineString([a, b, c])), Feature(Point(p))])
         == AddSegment(AddSegment(Empty, Segment(a, b)), Segment(b, c))
  {
    var line := Feature(LineString([a, b, c]));
    var fs := [line, Feature(Point(p))];
    var ss := [Segment(a, b), Segment(b, c)];
    assert fs == [line] + [fs[1]];
    AllSegmentsAppend([line], fs[1]);
    assert [] + [line] == [line];
    AllSegmentsAppend([], line);
    assert ChainSegments([a, b, c]) == ss;
    assert AllSegments(fs) == ss;
    assert [Segment(a, b)] + [Segment(b, c)] == ss;
    AddSegmentsAppend(Empty, [Segment(a, b)], Segment(b, c));
    assert [] + [Segment(a, b)] == [Segment(a, b)];
    AddSegmentsAppend(Empty, [], Segment(a, b));
    assert AddSegments(Empty, [Segment(a, b)]) == AddSegment(Empty, Segment(a, b));
  }

  /** The first pair added to an empty graph, its coordinates distinct. */
  lemma FirstPair(a: Coord, b: Coord)
    requires Key(a) != Key(b)
    ensures AddSegment(Empty, Segment(a, b))
         == Snapshot([Key(a), Key(b)], map[Key(a) := a, Key(b) := b], [Forward(Segment(a, b)), Backward(Segment(a, b))])
  {
  }

  /** A pair both of whose nodes are already present with that data adds
      only its two links. */
  lemma KnownPair(g: Snapshot, s: Segment)
    requires Key(s.from) in g.data && g.data[Key(s.from)] == s.from
    requires Key(s.to) in g.data && g.data[Key(s.to)] == s.to
    ensures AddSegment(g, s) == Snapshot(g.ids, g.data, g.links + [Forward(s), Backward(s)])
  {
    assert g.data[Key(s.from) := s.from] == g.data;
    assert g.data[Key(s.to) := s.to] == g.data;
  }

  /** A LineString that returns to its start yields one node per distinct
      coordinate, in first-visit order, with a link each way; the Point
      feature adds nothing. */
  lemma ClosedLineStringBuild()
    ensures var g := Build([Feature(LineString([Coord(0, 0), Coord(1, 0), Coord(0, 0)])), Feature(Point(Coord(5, 5)))]);
      && g.ids == ["0,0", "1,0"]
      && g.data == map["0,0" := Coord(0, 0), "1,0" := Coord(1, 0)]
      && Link("0,0", "1,0", 1) in g.links
      && Link("1,0", "0,0", 1) in g.links
  {
    var a, b := Coord(0, 0), Coord(1, 0);
    ThreePointBuild(a, b, a, Coord(5, 5));
    KeyText(a);
    KeyText(b);
    assert Key(a) == "0,0" && Key(b) == "1,0";
    FirstPair(a, b);
    var g1 := AddSegment(Empty, Segment(a, b));
    KnownPair(g1, Segment(b, a));
  }

  /** A LineString of two coordinates builds exactly one pair. */
  lemma SinglePairBuild(a: Coord, b: Coord)
    ensures Build([Feature(LineString([a, b]))]) == AddSegment(Empty, Segment(a, b))
  {
    var line := Feature(LineString([a, b]));
    assert [] + [line] == [line];
    AllSegmentsAppend([], line);
    assert ChainSegments([a, b]) == [Segment(a, b)];
    assert [] + [Segment(a, b)] == [Segment(a, b)];
    AddSegmentsAppend(Empty, [], Segment(a, b));
  }

  /** Two nodes at the same distance from the query: the one visited first
      (the first coordinate of the LineString) is returned. */
  lemma NearestTieGoesToFirst()
    ensures var g := Build([Feature(LineString([Coord(2, 0), Coord(0, 0)]))]);
      && g.ids == ["2,0", "0,0"]
      && NodesHaveData(g)
      && Nearest(g, Coord(1, 3)) == Some("2,0")
  {
    var a, b := Coord(2, 0), Coord(0, 0);
    SinglePairBuild(a, b);
    KeyText(a);
    KeyText(b);
    assert Key(a) == "2,0" && Key(b) == "0,0";
    FirstPair(a, b);
    var g := Snapshot(["2,0", "0,0"], map["2,0" := a, "0,0" := b], [Forward(Segment(a, b)), Backward(Segment(a, b))]);
    assert Build([Feature(LineString([a, b]))]) == g;
    assert NodesHaveData(g);
    var q := Coord(1, 3);
    assert NodeDistance(g, q, 0) == 4 && NodeDistance(g, q, 1) == 4;
    assert ScanBest(g, q, 2) == 0;
  }
}
