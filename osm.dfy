/** The OSM layer of graph-ds/src/hexagon_graph/osm.rs: which way tags make a way usable on a
    layer, and how the cells along a matching way become layer edges. Reading the PBF file, the
    h3 cell of a location and the h3 grid path between two cells are outside the model: a way
    arrives as its tags and the cells of its node locations, and the grid path is a parameter. */
module Osm {
  import opened Wrappers

  datatype OsmLayer = Cycling | Walking

  /** `tag_value_matches(tag, value, layer)`. Keys are compared as spelled in the source. */
  function TagValueMatches(tag: string, value: string, layer: OsmLayer): bool {
    match tag
    case "highway" =>
      !(value in {"motorway", "motorway_link", "prohibited", "trunk", "trunk_link", "construction"})
    case "access" => !(value in {"private", "no"})
    case "foot" => if layer == Walking then !(value in {"private", "no"}) else false
    case "bicycle" => if layer == Cycling then !(value in {"private", "no", "none"}) else false
    case "cycleway" => if layer == Cycling then !(value in {"shared", "no", "none"}) else false
    case "bycicle_road" => true
    case "bycicle" => true
    case _ => false
  }

  /** `way.tags().any(|(k, v)| tag_value_matches(k, v, &layer))`. */
  function AnyTagMatches(tags: seq<(string, string)>, layer: OsmLayer): (r: bool)
    ensures r <==> exists i :: 0 <= i < |tags| && TagValueMatches(tags[i].0, tags[i].1, layer)
  {
    if tags == [] then false
    else TagValueMatches(tags[0].0, tags[0].1, layer) || AnyTagMatches(tags[1..], layer)
  }

  // ---------------------------------------------------------------------------------------
  // the tag table

  /** Tag keys outside the table never match. */
  lemma UnlistedKeyNeverMatches(tag: string, value: string, layer: OsmLayer)
    requires tag !in {"highway", "access", "foot", "bicycle", "cycleway", "bycicle_road", "bycicle"}
    ensures !TagValueMatches(tag, value, layer)
  {
  }

  /** "highway" fails exactly for the six road kinds unusable on foot or by bicycle, on both
      layers. */
  lemma HighwayExclusions(value: string, layer: OsmLayer)
    ensures TagValueMatches("highway", value, layer) <==>
      value !in {"motorway", "motorway_link", "prohibited", "trunk", "trunk_link", "construction"}
  {
  }

  /** "access" fails exactly for private and no, whatever the layer. */
  lemma AccessExclusions(value: string, layer: OsmLayer)
    ensures TagValueMatches("access", value, layer) <==> value !in {"private", "no"}
  {
  }

  /** "foot" can match only on the walking layer, where it fails exactly for private and no. */
  lemma FootOnlyWalking(value: string, layer: OsmLayer)
    ensures TagValueMatches("foot", value, layer) <==> layer == Walking && value !in {"private", "no"}
  {
  }

  /** "bicycle" and "cycleway" can match only on the cycling layer, each with its own
      exclusions. */
  lemma CyclingKeysOnlyCycling(value: string, layer: OsmLayer)
    ensures TagValueMatches("bicycle", value, layer) <==> layer == Cycling && value !in {"private", "no", "none"}
    ensures TagValueMatches("cycleway", value, layer) <==> layer == Cycling && value !in {"shared", "no", "none"}
  {
  }

  /** The keys "bycicle_road" and "bycicle" match every value on both layers. */
  lemma MisspelledKeysAlwaysMatch(value: string, layer: OsmLayer)
    ensures TagValueMatches("bycicle_road", value, layer) && TagValueMatches("bycicle", value, layer)
  {
  }

  /** A tag that matches on walking but not on cycling is a "foot" tag, and the other way round
      a "bicycle" or "cycleway" tag: the other keys do not depend on the layer. */
  lemma LayerDependentKeys(tag: string, value: string)
    ensures TagValueMatches(tag, value, Walking) != TagValueMatches(tag, value, Cycling) ==>
      tag in {"foot", "bicycle", "cycleway"}
  {
  }

  // ---------------------------------------------------------------------------------------
  // edges

  /** An edge of the layer: `((layer, a, b), transition_weight)`. */
  datatype LayerEdge<C> = LayerEdge(layer: OsmLayer, from: C, to: C, weight: real)

  /** `transition_weight`: minutes to cross a cell at 4.5 m/s cycling or 1.4 m/s walking. */
  function TransitionWeight(layer: OsmLayer, cellDistance: real): real {
    match layer
    case Cycling => cellDistance / 4.5 / 60.0
    case Walking => cellDistance / 1.4 / 60.0
  }

  /** Crossing a cell takes longer on foot than by bicycle. */
  lemma WalkingSlowerThanCycling(cellDistance: real)
    requires cellDistance > 0.0
    ensures TransitionWeight(Walking, cellDistance) > TransitionWeight(Cycling, cellDistance)
  {
  }

  /** `path.into_iter().flatten()`: the cells of the path whose computation succeeded. */
  function Successful<C(==, !new)>(path: seq<Option<C>>): (r: seq<C>)
    ensures forall x :: x in r <==> Some(x) in path
  {
    if path == [] then []
    else (if path[0].Some? then [path[0].value] else []) + Successful(path[1..])
  }

  /** `node_points.windows(2).flat_map(..)`: for each consecutive pair of cells, the grid path
      between them, or nothing when it cannot be computed. */
  function PathPoints<C(==, !new)>(cells: seq<C>, gridPath: (C, C) -> Option<seq<Option<C>>>): seq<C>
  {
    if |cells| < 2 then []
    else
      (match gridPath(cells[0], cells[1])
       case Some(path) => Successful(path)
       case None => []) + PathPoints(cells[1..], gridPath)
  }

  /** `path_points.windows(2).flat_map(..)`: an edge for each consecutive pair of distinct
      cells. */
  function Edges<C(==, !new)>(points: seq<C>, layer: OsmLayer, weight: real): (r: seq<LayerEdge<C>>)
    ensures |r| <= if |points| < 2 then 0 else |points| - 1
  {
    if |points| < 2 then []
    else
      (if points[0] != points[1] then [LayerEdge(layer, points[0], points[1], weight)] else []) +
      Edges(points[1..], layer, weight)
  }

  /** A way of the file: its tags and the cells of its node locations. */
  datatype Element<C> = Way(tags: seq<(string, string)>, cells: seq<C>) | Other

  /** The edges one element contributes: none unless it is a way with a matching tag. */
  function ElementEdges<C(==, !new)>(element: Element<C>, layer: OsmLayer, weight: real,
                               gridPath: (C, C) -> Option<seq<Option<C>>>): seq<LayerEdge<C>>
  {
    match element
    case Way(tags, cells) =>
      if AnyTagMatches(tags, layer) then Edges(PathPoints(cells, gridPath), layer, weight) else []
    case Other => []
  }

  /** The edges of all elements, one element after the other. */
  function ProcessElements<C(==, !new)>(elements: seq<Element<C>>, layer: OsmLayer, weight: real,
                                  gridPath: (C, C) -> Option<seq<Option<C>>>): seq<LayerEdge<C>>
  {
    if elements == [] then []
    else ElementEdges(elements[0], layer, weight, gridPath) + ProcessElements(elements[1..], layer, weight, gridPath)
  }

  // ---------------------------------------------------------------------------------------
  // properties of the edges

  /** Every edge joins two consecutive, distinct points and carries the layer and the weight. */
  lemma {:induction false} EdgesSound<C(!new)>(points: seq<C>, layer: OsmLayer, weight: real)
    ensures forall e :: e in Edges(points, layer, weight) ==>
      e.layer == layer && e.weight == weight && e.from != e.to &&
      exists i :: 0 <= i < |points| - 1 && points[i] == e.from && points[i + 1] == e.to
    decreases |points|
  {
    if |points| >= 2 {
      EdgesSound(points[1..], layer, weight);
      forall e | e in Edges(points[1..], layer, weight)
        ensures exists i :: 0 <= i < |points| - 1 && points[i] == e.from && points[i + 1] == e.to
      {
        var i :| 0 <= i < |points[1..]| - 1 && points[1..][i] == e.from && points[1..][i + 1] == e.to;
        assert points[i + 1] == e.from && points[i + 2] == e.to;
      }
    }
  }

  /** Every pair of consecutive distinct points gives an edge. */
  lemma {:induction false} EdgesComplete<C(!new)>(points: seq<C>, layer: OsmLayer, weight: real)
    ensures forall i :: 0 <= i < |points| - 1 && points[i] != points[i + 1] ==>
      LayerEdge(layer, points[i], points[i + 1], weight) in Edges(points, layer, weight)
    decreases |points|
  {
    if |points| >= 2 {
      EdgesComplete(points[1..], layer, weight);
      forall i | 0 <= i < |points| - 1 && points[i] != points[i + 1]
        ensures LayerEdge(layer, points[i], points[i + 1], weight) in Edges(points, layer, weight)
      {
        if i > 0 {
          assert points[1..][i - 1] == points[i] && points[1..][i] == points[i + 1];
        }
      }
    }
  }

  /** A cell is on the path exactly when it was computed on the grid path between two
      consecutive cells; pairs whose grid path fails contribute nothing. */
  lemma {:induction false} PathPointsMembers<C(!new)>(cells: seq<C>, gridPath: (C, C) -> Option<seq<Option<C>>>, x: C)
    ensures x in PathPoints(cells, gridPath) <==>
      exists i :: 0 <= i < |cells| - 1 && gridPath(cells[i], cells[i + 1]).Some? &&
        Some(x) in gridPath(cells[i], cells[i + 1]).value
    decreases |cells|
  {
    if |cells| >= 2 {
      PathPointsMembers(cells[1..], gridPath, x);
      if x in PathPoints(cells[1..], gridPath) {
        var i :| 0 <= i < |cells[1..]| - 1 && gridPath(cells[1..][i], cells[1..][i + 1]).Some? &&
          Some(x) in gridPath(cells[1..][i], cells[1..][i + 1]).value;
        assert cells[1..][i] == cells[i + 1] && cells[1..][i + 1] == cells[i + 2];
      }
      if exists i :: 0 <= i < |cells| - 1 && gridPath(cells[i], cells[i + 1]).Some? &&
          Some(x) in gridPath(cells[i], cells[i + 1]).value {
        var i :| 0 <= i < |cells| - 1 && gridPath(cells[i], cells[i + 1]).Some? &&
          Some(x) in gridPath(cells[i], cells[i + 1]).value;
        if i > 0 {
          assert cells[1..][i - 1] == cells[i] && cells[1..][i] == cells[i + 1];
        }
      }
    }
  }

  /** A way whose node cells all have failing grid paths yields no edges. */
  lemma AllPathsFailNoEdges<C(!new)>(tags: seq<(string, string)>, cells: seq<C>, layer: OsmLayer, weight: real,
                               gridPath: (C, C) -> Option<seq<Option<C>>>)
    requires forall i :: 0 <= i < |cells| - 1 ==> gridPath(cells[i], cells[i + 1]).None?
    ensures ElementEdges(Way(tags, cells), layer, weight, gridPath) == []
  {
    var points := PathPoints(cells, gridPath);
    if points != [] {
      PathPointsMembers(cells, gridPath, points[0]);
    }
  }

  /** The edges of an element: none from a way without a matching tag or from another element;
      otherwise edges between consecutive distinct cells of its path, on the layer, with the
      weight. */
  lemma ElementEdgesSound<C(!new)>(element: Element<C>, layer: OsmLayer, weight: real,
                             gridPath: (C, C) -> Option<seq<Option<C>>>)
    ensures element.Other? ==> ElementEdges(element, layer, weight, gridPath) == []
    ensures element.Way? && !AnyTagMatches(element.tags, layer) ==>
      ElementEdges(element, layer, weight, gridPath) == []
    ensures element.Way? ==> forall e :: e in ElementEdges(element, layer, weight, gridPath) ==>
      e.layer == layer && e.weight == weight && e.from != e.to &&
      e.from in PathPoints(element.cells, gridPath) && e.to in PathPoints(element.cells, gridPath)
  {
    if element.Way? {
      var points := PathPoints(element.cells, gridPath);
      EdgesSound(points, layer, weight);
    }
  }

  /** The result of the file is the edges of each element, in element order. */
  lemma {:induction false} ProcessElementsAppend<C(!new)>(a: seq<Element<C>>, b: seq<Element<C>>, layer: OsmLayer, weight: real,
                                                   gridPath: (C, C) -> Option<seq<Option<C>>>)
    ensures ProcessElements(a + b, layer, weight, gridPath) ==
      ProcessElements(a, layer, weight, gridPath) + ProcessElements(b, layer, weight, gridPath)
    decreases |a|
  {
    if a == [] {
      assert a + b == b;
    } else {
      assert (a + b)[1..] == a[1..] + b;
      ProcessElementsAppend(a[1..], b, layer, weight, gridPath);
    }
  }
}
