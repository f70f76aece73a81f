/** The input of a rebuild: the features of a GeoJSON FeatureCollection, and
    the consecutive coordinate pairs that become links. */
module GeoJson {
  import opened Geo

  /** The name of a GeoJSON geometry type other than the two modelled ones. */
  type OtherKind = k: string | k != "LineString" && k != "Point" witness "Polygon"

  /** The geometry of a feature, tagged by its GeoJSON type. The drawing tool
      produces LineString and Point features; any other type is carried by name. */
  datatype Geometry =
    | LineString(coordinates: seq<Coord>)
    | Point(position: Coord)
    | OtherGeometry(kind: OtherKind)

  datatype Feature = Feature(geometry: Geometry)

  /** A consecutive coordinate pair (from, to) of a LineString. */
  datatype Segment = Segment(from: Coord, to: Coord)

  /** The pairs visited by `for (i = 0; i < coords.length - 1; i++)`. */
  function ChainSegments(coords: seq<Coord>): seq<Segment>
  {
    if |coords| < 2 then []
    else seq(|coords| - 1, i requires 0 <= i < |coords| - 1 => Segment(coords[i], coords[i + 1]))
  }

  /** The pairs a feature contributes: those of a LineString, none otherwise. */
  function FeatureSegments(f: Feature): seq<Segment>
  {
    if f.geometry.LineString? then ChainSegments(f.geometry.coordinates) else []
  }

  /** The pairs of all features, in the order a rebuild visits them. */
  function AllSegments(fs: seq<Feature>): seq<Segment>
  {
    if fs == [] then [] else AllSegments(fs[..|fs| - 1]) + FeatureSegments(fs[|fs| - 1])
  }

  /** A feature that adds something to the graph: a LineString with at least
      two coordinates. */
  predicate Contributes(f: Feature)
  {
    f.geometry.LineString? && |f.geometry.coordinates| >= 2
  }

  function ContributingOnly(fs: seq<Feature>): (r: seq<Feature>)
    ensures forall i :: 0 <= i < |r| ==> Contributes(r[i])
  {
    if fs == [] then []
    else if Contributes(fs[|fs| - 1]) then ContributingOnly(fs[..|fs| - 1]) + [fs[|fs| - 1]]
    else ContributingOnly(fs[..|fs| - 1])
  }

  lemma AllSegmentsAppend(fs: seq<Feature>, f: Feature)
    ensures AllSegments(fs + [f]) == AllSegments(fs) + FeatureSegments(f)
  {
    assert (fs + [f])[..|fs|] == fs;
  }

  /** Features of another type, and LineStrings with fewer than two
      coordinates, contribute no pairs at all. */
  lemma {:induction false} NonContributingIgnored(fs: seq<Feature>)
    ensures AllSegments(fs) == AllSegments(ContributingOnly(fs))
  {
    if fs != [] {
      var init, last := fs[..|fs| - 1], fs[|fs| - 1];
      NonContributingIgnored(init);
      if Contributes(last) {
        AllSegmentsAppend(ContributingOnly(init), last);
      } else {
        assert FeatureSegments(last) == [];
      }
    }
  }

  /** The segment (c, d) at position i of feature k. */
  ghost predicate SegmentOf(fs: seq<Feature>, k: int, i: int, s: Segment)
  {
    && 0 <= k < |fs|
    && fs[k].geometry.LineString?
    && 0 <= i < |fs[k].geometry.coordinates| - 1
    && s == Segment(fs[k].geometry.coordinates[i], fs[k].geometry.coordinates[i + 1])
  }

  /** Every consecutive pair of every LineString is visited. */
  lemma {:induction false} SegmentVisited(fs: seq<Feature>, k: int, i: int)
    requires 0 <= k < |fs| && fs[k].geometry.LineString?
    requires 0 <= i < |fs[k].geometry.coordinates| - 1
    ensures Segment(fs[k].geometry.coordinates[i], fs[k].geometry.coordinates[i + 1]) in AllSegments(fs)
  {
    var init, last := fs[..|fs| - 1], fs[|fs| - 1];
    if k < |fs| - 1 {
      assert init[k] == fs[k];
      SegmentVisited(init, k, i);
    } else {
      assert FeatureSegments(last)[i] == Segment(fs[k].geometry.coordinates[i], fs[k].geometry.coordinates[i + 1]);
    }
  }

  /** Every visited pair is consecutive in some LineString. */
  lemma {:induction false} SegmentFound(fs: seq<Feature>, s: Segment)
    requires s in AllSegments(fs)
    ensures exists k, i :: SegmentOf(fs, k, i, s)
  {
    var init, last := fs[..|fs| - 1], fs[|fs| - 1];
    if s in AllSegments(init) {
      SegmentFound(init, s);
      var k, i :| SegmentOf(init, k, i, s);
      assert SegmentOf(fs, k, i, s);
    } else {
      var segs := FeatureSegments(last);
      var i :| 0 <= i < |segs| && segs[i] == s;
      assert SegmentOf(fs, |fs| - 1, i, s);
    }
  }

  /** A pair is visited exactly when it is consecutive in some LineString. */
  lemma SegmentOrigin(fs: seq<Feature>, s: Segment)
    ensures s in AllSegments(fs) <==> exists k, i :: SegmentOf(fs, k, i, s)
  {
    if s in AllSegments(fs) {
      SegmentFound(fs, s);
    }
    if exists k, i :: SegmentOf(fs, k, i, s) {
      var k, i :| SegmentOf(fs, k, i, s);
      SegmentVisited(fs, k, i);
    }
  }

  /** The coordinates named by a sequence of pairs. */
  function Endpoints(ss: seq<Segment>): set<Coord>
  {
    if ss == [] then {} else Endpoints(ss[..|ss| - 1]) + {ss[|ss| - 1].from, ss[|ss| - 1].to}
  }

  lemma EndpointOf(ss: seq<Segment>, c: Coord)
    ensures c in Endpoints(ss) <==> exists i :: 0 <= i < |ss| && (ss[i].from == c || ss[i].to == c)
  {
    if ss != [] {
      var init := ss[..|ss| - 1];
      EndpointOf(init, c);
      if exists i :: 0 <= i < |init| && (init[i].from == c || init[i].to == c) {
        var i :| 0 <= i < |init| && (init[i].from == c || init[i].to == c);
        assert ss[i] == init[i];
      }
      if exists i :: 0 <= i < |ss| && (ss[i].from == c || ss[i].to == c) {
        var i :| 0 <= i < |ss| && (ss[i].from == c || ss[i].to == c);
        if i < |init| {
          assert init[i] == ss[i];
        }
      }
    }
  }

  /** A coordinate lies on a LineString of `fs` that has at least two
      coordinates. */
  ghost predicate OnChain(fs: seq<Feature>, c: Coord)
  {
    exists k :: 0 <= k < |fs| && Contributes(fs[k]) && c in fs[k].geometry.coordinates
  }

  lemma EndpointIsOnChain(fs: seq<Feature>, ss: seq<Segment>, i: int, c: Coord)
    requires ss == AllSegments(fs) && 0 <= i < |ss| && (ss[i].from == c || ss[i].to == c)
    ensures OnChain(fs, c)
  {
    SegmentOrigin(fs, ss[i]);
    var k, j :| SegmentOf(fs, k, j, ss[i]);
    assert c == fs[k].geometry.coordinates[j] || c == fs[k].geometry.coordinates[j + 1];
  }

  /** A coordinate of a chain of two or more is an end of one of its pairs. */
  lemma PairThrough(coords: seq<Coord>, c: Coord) returns (i: nat)
    requires |coords| >= 2 && c in coords
    ensures i < |coords| - 1 && (coords[i] == c || coords[i + 1] == c)
  {
    var j :| 0 <= j < |coords| && coords[j] == c;
    i := if j + 1 < |coords| then j else j - 1;
  }

  lemma OnChainIsEndpoint(fs: seq<Feature>, ss: seq<Segment>, c: Coord)
    requires ss == AllSegments(fs) && OnChain(fs, c)
    ensures exists n :: 0 <= n < |ss| && (ss[n].from == c || ss[n].to == c)
  {
    var k :| 0 <= k < |fs| && Contributes(fs[k]) && c in fs[k].geometry.coordinates;
    var i := PairThrough(fs[k].geometry.coordinates, c);
    SegmentVisited(fs, k, i);
    var s := Segment(fs[k].geometry.coordinates[i], fs[k].geometry.coordinates[i + 1]);
    var n :| 0 <= n < |ss| && ss[n] == s;
    assert ss[n].from == c || ss[n].to == c;
  }

  /** The coordinates of the visited pairs are exactly the coordinates of the
      LineStrings that have at least two of them. */
  lemma EndpointsOnChain(fs: seq<Feature>, c: Coord)
    ensures c in Endpoints(AllSegments(fs)) <==> OnChain(fs, c)
  {
    var ss := AllSegments(fs);
    EndpointOf(ss, c);
    if c in Endpoints(ss) {
      var i :| 0 <= i < |ss| && (ss[i].from == c || ss[i].to == c);
      EndpointIsOnChain(fs, ss, i, c);
    }
    if OnChain(fs, c) {
      OnChainIsEndpoint(fs, ss, c);
    }
  }
}
