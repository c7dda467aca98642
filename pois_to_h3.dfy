/** The point-of-interest side of python/pois_to_h3.py: nested-list flattening, the x/y swap of
    shapely geometries, the geometry-type dispatch to hexagon cells, the tag lookups and the
    table pipeline that turns raw POI records into (cell, category) rows. The h3 functions are
    parameters: their geometry is not modelled. */
module PoisToH3 {
  import opened Wrappers

  type H3Index = nat

  // ---------------------------------------------------------------------------------------
  // flatten

  /** A Python value that is either a list (flattened recursively) or anything else (kept). */
  datatype Nested<T> = Leaf(value: T) | List(items: seq<Nested<T>>)

  /** `flatten(lst)`: the leaves of lst, left to right, at any depth. */
  function Flatten<T>(lst: seq<Nested<T>>): seq<T>
    decreases lst
  {
    if lst == [] then []
    else
      (match lst[0]
        case Leaf(v) => [v]
        case List(items) => Flatten(items))
      + Flatten(lst[1..])
  }

  /** Flattening a concatenation flattens each half. */
  lemma {:induction false} FlattenAppend<T>(a: seq<Nested<T>>, b: seq<Nested<T>>)
    ensures Flatten(a + b) == Flatten(a) + Flatten(b)
    decreases a
  {
    if a == [] {
      assert a + b == b;
    } else {
      assert (a + b)[0] == a[0];
      assert (a + b)[1..] == a[1..] + b;
      FlattenAppend(a[1..], b);
    }
  }

  /** The items as leaves of one flat list. */
  function Leaves<T>(xs: seq<T>): (lst: seq<Nested<T>>)
    ensures |lst| == |xs|
  {
    seq(|xs|, i requires 0 <= i < |xs| => Leaf(xs[i]))
  }

  /** A list without nesting is returned unchanged. */
  lemma {:induction false} FlattenOfLeaves<T>(xs: seq<T>)
    ensures Flatten(Leaves(xs)) == xs
  {
    if xs != [] {
      assert Leaves(xs)[1..] == Leaves(xs[1..]);
      FlattenOfLeaves(xs[1..]);
    }
  }

  /** Extra levels of nesting disappear, and flattening twice changes nothing. */
  lemma FlattenRemovesNesting<T>(lst: seq<Nested<T>>)
    ensures Flatten([List(lst)]) == Flatten(lst)
    ensures Flatten(Leaves(Flatten(lst))) == Flatten(lst)
  {
    assert [List(lst)][1..] == [];
    FlattenOfLeaves(Flatten(lst));
  }

  /** The number of leaves of a nested list. */
  function LeafCount<T>(lst: seq<Nested<T>>): nat
    decreases lst
  {
    if lst == [] then 0
    else
      (match lst[0]
        case Leaf(_) => 1
        case List(items) => LeafCount(items))
      + LeafCount(lst[1..])
  }

  /** Every leaf is kept exactly once. */
  lemma {:induction false} FlattenKeepsLeaves<T>(lst: seq<Nested<T>>)
    ensures |Flatten(lst)| == LeafCount(lst)
    decreases lst
  {
    if lst != [] {
      FlattenKeepsLeaves(lst[1..]);
      match lst[0]
      case Leaf(_) =>
      case List(items) => FlattenKeepsLeaves(items);
    }
  }

  // ---------------------------------------------------------------------------------------
  // shapely geometries and swap_xy

  /** A coordinate, with or without z. */
  datatype Coord = XY(x: real, y: real) | XYZ(x: real, y: real, z: real)

  type Ring = seq<Coord>

  /** A polygon: exterior ring and interior rings. */
  datatype PolygonShape = PolygonShape(shell: Ring, holes: seq<Ring>)

  /** The shapely geometry types `swap_xy` handles. An empty point has no coordinate. */
  datatype Geometry =
    | Point(pt: Option<Coord>)
    | LineString(coords: Ring)
    | LinearRing(coords: Ring)
    | Polygon(poly: PolygonShape)
    | MultiPoint(points: seq<Option<Coord>>)
    | MultiLineString(lines: seq<Ring>)
    | MultiPolygon(polygons: seq<PolygonShape>)
    | GeometryCollection(geoms: seq<Geometry>)

  /** shapely's `is_empty`: no coordinates at all (a collection is empty when all parts are). */
  predicate IsEmpty(g: Geometry) {
    match g
    case Point(pt) => pt.None?
    case LineString(cs) => cs == []
    case LinearRing(cs) => cs == []
    case Polygon(p) => p.shell == []
    case MultiPoint(pts) => forall i :: 0 <= i < |pts| ==> pts[i].None?
    case MultiLineString(ls) => forall i :: 0 <= i < |ls| ==> ls[i] == []
    case MultiPolygon(ps) => forall i :: 0 <= i < |ps| ==> ps[i].shell == []
    case GeometryCollection(gs) => forall i :: 0 <= i < |gs| ==> IsEmpty(gs[i])
  }

  /** The generator `swap_xy_coords` applied to one coordinate: x and y exchanged, z kept. */
  function SwapCoord(c: Coord): (r: Coord)
    ensures r.x == c.y && r.y == c.x
    ensures r.XYZ? <==> c.XYZ?
    ensures c.XYZ? ==> r.z == c.z
  {
    match c
    case XY(x, y) => XY(y, x)
    case XYZ(x, y, z) => XYZ(y, x, z)
  }

  function SwapCoords(cs: Ring): (r: Ring)
    ensures |r| == |cs|
    ensures forall i :: 0 <= i < |cs| ==> r[i] == SwapCoord(cs[i])
  {
    seq(|cs|, i requires 0 <= i < |cs| => SwapCoord(cs[i]))
  }

  function SwapRings(holes: seq<Ring>): (r: seq<Ring>)
    ensures |r| == |holes|
    ensures forall i :: 0 <= i < |holes| ==> r[i] == SwapCoords(holes[i])
  {
    seq(|holes|, i requires 0 <= i < |holes| => SwapCoords(holes[i]))
  }

  /** The loop of the Polygon branch: the list of interior rings is rewritten in place, ring by
      ring. */
  method SwapHoles(interiors: seq<Ring>) returns (holes: seq<Ring>)
    ensures holes == SwapRings(interiors)
  {
    holes := interiors;
    var pos := 0;
    while pos < |holes|
      invariant 0 <= pos <= |holes| == |interiors|
      invariant forall j :: 0 <= j < pos ==> holes[j] == SwapCoords(interiors[j])
      invariant forall j :: pos <= j < |holes| ==> holes[j] == interiors[j]
    {
      holes := holes[pos := SwapCoords(holes[pos])];
      pos := pos + 1;
    }
  }

  function SwapPoint(pt: Option<Coord>): Option<Coord> {
    match pt
    case None => None
    case Some(c) => Some(SwapCoord(c))
  }

  /** `swap_xy` of one polygon; an empty polygon is returned as it is. */
  function SwapPolygon(p: PolygonShape): PolygonShape {
    if p.shell == [] then p else PolygonShape(SwapCoords(p.shell), SwapRings(p.holes))
  }

  /** `swap_xy(geom)`: empty geometries come back unchanged; otherwise every coordinate has x
      and y exchanged, recursively through the parts of multi-geometries and collections. */
  function SwapXY(g: Geometry): Geometry {
    if IsEmpty(g) then g
    else
      match g
      case Point(pt) => Point(SwapPoint(pt))
      case LineString(cs) => LineString(SwapCoords(cs))
      case LinearRing(cs) => LinearRing(SwapCoords(cs))
      case Polygon(p) => Polygon(SwapPolygon(p))
      case MultiPoint(pts) => MultiPoint(seq(|pts|, i requires 0 <= i < |pts| => SwapPoint(pts[i])))
      case MultiLineString(ls) => MultiLineString(seq(|ls|, i requires 0 <= i < |ls| => SwapCoords(ls[i])))
      case MultiPolygon(ps) => MultiPolygon(seq(|ps|, i requires 0 <= i < |ps| => SwapPolygon(ps[i])))
      case GeometryCollection(gs) => GeometryCollection(seq(|gs|, i requires 0 <= i < |gs| => SwapXY(gs[i])))
  }

  lemma SwapCoordsTwice(cs: Ring)
    ensures SwapCoords(SwapCoords(cs)) == cs
  {
  }

  lemma SwapPolygonTwice(p: PolygonShape)
    ensures SwapPolygon(SwapPolygon(p)) == p
    ensures SwapPolygon(p).shell == [] <==> p.shell == []
  {
    if p.shell != [] {
      SwapCoordsTwice(p.shell);
      var holes := SwapRings(SwapRings(p.holes));
      forall i | 0 <= i < |holes| ensures holes[i] == p.holes[i] {
        SwapCoordsTwice(p.holes[i]);
      }
    }
  }

  /** Swapping keeps a geometry empty or non-empty. */
  lemma {:induction false} SwapXYKeepsEmptiness(g: Geometry)
    ensures IsEmpty(SwapXY(g)) <==> IsEmpty(g)
  {
    if !IsEmpty(g) {
      match g
      case MultiPoint(pts) =>
        var swapped := SwapXY(g).points;
        forall i | 0 <= i < |pts| ensures swapped[i].None? <==> pts[i].None? {
        }
      case MultiLineString(ls) =>
        var swapped := SwapXY(g).lines;
        forall i | 0 <= i < |ls| ensures swapped[i] == [] <==> ls[i] == [] {
        }
      case MultiPolygon(ps) =>
        var swapped := SwapXY(g).polygons;
        forall i | 0 <= i < |ps| ensures swapped[i].shell == [] <==> ps[i].shell == [] {
          SwapPolygonTwice(ps[i]);
        }
      case GeometryCollection(gs) =>
        var swapped := SwapXY(g).geoms;
        forall i | 0 <= i < |gs| ensures IsEmpty(swapped[i]) <==> IsEmpty(gs[i]) {
          SwapXYKeepsEmptiness(gs[i]);
        }
      case _ =>
    }
  }

  /** `swap_xy` is an involution on every handled geometry type, with or without z. */
  lemma {:induction false} SwapXYInvolution(g: Geometry)
    ensures SwapXY(SwapXY(g)) == g
  {
    SwapXYKeepsEmptiness(g);
    if !IsEmpty(g) {
      match g
      case Point(pt) =>
      case LineString(cs) => SwapCoordsTwice(cs);
      case LinearRing(cs) => SwapCoordsTwice(cs);
      case Polygon(p) => SwapPolygonTwice(p);
      case MultiPoint(pts) =>
        var twice := SwapXY(SwapXY(g)).points;
        assert twice == pts;
      case MultiLineString(ls) =>
        var twice := SwapXY(SwapXY(g)).lines;
        forall i | 0 <= i < |ls| ensures twice[i] == ls[i] {
          SwapCoordsTwice(ls[i]);
        }
      case MultiPolygon(ps) =>
        var twice := SwapXY(SwapXY(g)).polygons;
        forall i | 0 <= i < |ps| ensures twice[i] == ps[i] {
          SwapPolygonTwice(ps[i]);
        }
      case GeometryCollection(gs) =>
        var twice := SwapXY(SwapXY(g)).geoms;
        forall i | 0 <= i < |gs| ensures twice[i] == gs[i] {
          SwapXYInvolution(gs[i]);
        }
    }
  }

  /** Two rings of the same length whose coordinates have the same dimension and the same z. */
  predicate SameRingShape(a: Ring, b: Ring) {
    |a| == |b| &&
    forall i :: 0 <= i < |a| ==> (a[i].XYZ? <==> b[i].XYZ?) && (a[i].XYZ? ==> a[i].z == b[i].z)
  }

  predicate SamePolygonShape(p: PolygonShape, q: PolygonShape) {
    SameRingShape(p.shell, q.shell) && |p.holes| == |q.holes| &&
    forall i :: 0 <= i < |p.holes| ==> SameRingShape(p.holes[i], q.holes[i])
  }

  /** Same geometry type, same number of parts, same number of holes, same number of
      coordinates per ring, and the same z in third position. */
  predicate SameShape(g: Geometry, h: Geometry) {
    match g
    case Point(pt) => h.Point? && (pt.Some? <==> h.pt.Some?) &&
      (pt.Some? ==> SameRingShape([pt.value], [h.pt.value]))
    case LineString(cs) => h.LineString? && SameRingShape(cs, h.coords)
    case LinearRing(cs) => h.LinearRing? && SameRingShape(cs, h.coords)
    case Polygon(p) => h.Polygon? && SamePolygonShape(p, h.poly)
    case MultiPoint(pts) => h.MultiPoint? && |pts| == |h.points| &&
      (forall i :: 0 <= i < |pts| ==>
        (pts[i].Some? <==> h.points[i].Some?) &&
        (pts[i].Some? ==> SameRingShape([pts[i].value], [h.points[i].value])))
    case MultiLineString(ls) => h.MultiLineString? && |ls| == |h.lines| &&
      forall i :: 0 <= i < |ls| ==> SameRingShape(ls[i], h.lines[i])
    case MultiPolygon(ps) => h.MultiPolygon? && |ps| == |h.polygons| &&
      forall i :: 0 <= i < |ps| ==> SamePolygonShape(ps[i], h.polygons[i])
    case GeometryCollection(gs) =>
      h.GeometryCollection? && |gs| == |h.geoms| && forall i :: 0 <= i < |gs| ==> SameShape(gs[i], h.geoms[i])
  }

  lemma SwapPolygonShape(p: PolygonShape)
    ensures SamePolygonShape(p, SwapPolygon(p))
  {
  }

  /** `swap_xy` keeps the type, the part and hole counts, the ring lengths and every z; an empty
      geometry is returned as it is. */
  lemma {:induction false} SwapXYKeepsShape(g: Geometry)
    ensures SameShape(g, SwapXY(g))
    ensures IsEmpty(g) ==> SwapXY(g) == g
  {
    match g
    case MultiPolygon(ps) =>
      var h := SwapXY(g);
      forall i | 0 <= i < |ps| ensures SamePolygonShape(ps[i], h.polygons[i]) {
        SwapPolygonShape(ps[i]);
      }
    case GeometryCollection(gs) =>
      var h := SwapXY(g);
      forall i | 0 <= i < |gs| ensures SameShape(gs[i], h.geoms[i]) {
        if IsEmpty(g) {
          SameShapeReflexive(gs[i]);
        } else {
          SwapXYKeepsShape(gs[i]);
        }
      }
    case _ =>
  }

  lemma {:induction false} SameShapeReflexive(g: Geometry)
    ensures SameShape(g, g)
  {
    match g
    case GeometryCollection(gs) =>
      forall i | 0 <= i < |gs| ensures SameShape(gs[i], gs[i]) {
        SameShapeReflexive(gs[i]);
      }
    case _ =>
  }

  // ---------------------------------------------------------------------------------------
  // LineString_to_hex and all_shapley_geo_to_h3

  /** The h3 calls at a fixed resolution, as opaque functions: `geo_to_h3(lat, lng)`,
      `h3_line(start, end)` and `polyfill` of one polygon. */
  datatype H3Api = H3Api(
    geoToH3: (real, real) -> H3Index,
    h3Line: (H3Index, H3Index) -> seq<H3Index>,
    polyfill: PolygonShape -> seq<H3Index>)

  /** What `all_shapley_geo_to_h3` returns: a list of cells, a single cell, or None for the
      types it does not handle. */
  datatype H3Value = Cells(cells: seq<H3Index>) | Cell(cell: H3Index) | NoValue

  /** `LineString_to_hex`: the h3 line between the cells of the first and the last vertex.
      An empty line raises IndexError, modelled as None. */
  function LineStringToHex(coords: Ring, api: H3Api): (r: Option<seq<H3Index>>)
    ensures r.None? <==> coords == []
  {
    if coords == [] then None
    else
      var start := api.geoToH3(coords[0].x, coords[0].y);
      var end := api.geoToH3(coords[|coords| - 1].x, coords[|coords| - 1].y);
      Some(api.h3Line(start, end))
  }

  /** Only the first and the last vertex matter. */
  lemma LineDependsOnEndpoints(a: Ring, b: Ring, api: H3Api)
    requires a != [] && b != []
    requires a[0] == b[0] && a[|a| - 1] == b[|b| - 1]
    ensures LineStringToHex(a, api) == LineStringToHex(b, api)
  {
  }

  /** The cells of the polygons, concatenated in part order. */
  function PolyfillAll(ps: seq<PolygonShape>, api: H3Api): seq<H3Index> {
    if ps == [] then [] else PolyfillAll(ps[..|ps| - 1], api) + api.polyfill(ps[|ps| - 1])
  }

  /** The cells of the lines, concatenated in part order; an empty line makes it fail. */
  function LinesToHex(ls: seq<Ring>, api: H3Api): Option<seq<H3Index>> {
    if ls == [] then Some([])
    else
      match (LinesToHex(ls[..|ls| - 1], api), LineStringToHex(ls[|ls| - 1], api))
      case (Some(a), Some(b)) => Some(a + b)
      case _ => None
  }

  /** `all_shapley_geo_to_h3(obj)`: swap the axes, then dispatch on the original type. A point
      without coordinate or an empty line raises, modelled as None; unsupported types print a
      message and return None, modelled as NoValue. */
  function AllShapelyGeoToH3(g: Geometry, api: H3Api): (r: Option<H3Value>)
  {
    var obj := SwapXY(g);
    match g
    case MultiPolygon(_) => Some(Cells(PolyfillAll(obj.polygons, api)))
    case Polygon(_) => Some(Cells(api.polyfill(obj.poly)))
    case MultiLineString(_) =>
      (match LinesToHex(obj.lines, api)
        case Some(cells) => Some(Cells(cells))
        case None => None)
    case LineString(_) =>
      (match LineStringToHex(obj.coords, api)
        case Some(cells) => Some(Cells(cells))
        case None => None)
    case Point(_) =>
      (match obj.pt
        case Some(c) => Some(Cell(api.geoToH3(c.x, c.y)))
        case None => None)
    case _ => Some(NoValue)
  }

  /** h3 takes (lat, lng): a point (x, y) is looked up as geo_to_h3(y, x). */
  lemma PointAxisSwap(x: real, y: real, api: H3Api)
    ensures AllShapelyGeoToH3(Point(Some(XY(x, y))), api) == Some(Cell(api.geoToH3(y, x)))
  {
  }

  /** A line (x0, y0) .. (xn, yn) becomes the h3 line from cell (y0, x0) to cell (yn, xn). */
  lemma LineAxisSwap(coords: Ring, api: H3Api)
    requires coords != []
    ensures AllShapelyGeoToH3(LineString(coords), api) == Some(Cells(api.h3Line(
      api.geoToH3(coords[0].y, coords[0].x), api.geoToH3(coords[|coords| - 1].y, coords[|coords| - 1].x))))
  {
  }

  /** Types without a branch give no value; an empty point or line fails. */
  lemma UnhandledTypes(g: Geometry, api: H3Api)
    ensures g.LinearRing? || g.MultiPoint? || g.GeometryCollection? ==> AllShapelyGeoToH3(g, api) == Some(NoValue)
    ensures g.Point? ==> (AllShapelyGeoToH3(g, api).None? <==> g.pt.None?)
    ensures g.LineString? ==> (AllShapelyGeoToH3(g, api).None? <==> g.coords == [])
    ensures g.Polygon? || g.MultiPolygon? ==> AllShapelyGeoToH3(g, api).Some?
  {
  }

  /** A multipolygon covers the concatenation, in part order and without deduplication, of
      the cells each of its polygons covers alone. */
  lemma MultiPolygonConcat(ps: seq<PolygonShape>, p: PolygonShape, api: H3Api)
    ensures AllShapelyGeoToH3(MultiPolygon([]), api) == Some(Cells([]))
    ensures AllShapelyGeoToH3(MultiPolygon(ps + [p]), api) == Some(Cells(
      AllShapelyGeoToH3(MultiPolygon(ps), api).value.cells + AllShapelyGeoToH3(Polygon(p), api).value.cells))
  {
    var all := ps + [p];
    var sAll := SwapXY(MultiPolygon(all)).polygons;
    var sPs := SwapXY(MultiPolygon(ps)).polygons;
    assert |sAll| == |all|;
    assert sAll[..|ps|] == sPs by {
      forall i | 0 <= i < |ps| ensures sAll[i] == sPs[i] {
        assert all[i] == ps[i];
      }
    }
    assert sAll[|ps|] == SwapXY(Polygon(p)).poly;
  }

  /** A multilinestring covers the concatenation of its lines' cells, and fails when one of
      its lines is empty. */
  lemma MultiLineStringConcat(ls: seq<Ring>, l: Ring, api: H3Api)
    ensures AllShapelyGeoToH3(MultiLineString([]), api) == Some(Cells([]))
    ensures AllShapelyGeoToH3(MultiLineString(ls + [l]), api) ==
      match (AllShapelyGeoToH3(MultiLineString(ls), api), AllShapelyGeoToH3(LineString(l), api))
      case (Some(a), Some(b)) => Some(Cells(a.cells + b.cells))
      case _ => None
  {
    var all := ls + [l];
    var sAll := SwapXY(MultiLineString(all)).lines;
    var sLs := SwapXY(MultiLineString(ls)).lines;
    assert |sAll| == |all|;
    assert sAll[..|ls|] == sLs by {
      forall i | 0 <= i < |ls| ensures sAll[i] == sLs[i] {
        assert all[i] == ls[i];
      }
    }
    assert sAll[|ls|] == SwapXY(LineString(l)).coords;
  }

  // ---------------------------------------------------------------------------------------
  // osm_to_manual_category and tag_conditions

  /** `osm_to_manual_category(tag, mapping)`: the mapped category when the tag is a key, the
      tag itself otherwise (a missing tag, NaN in pandas, is never a key). */
  function OsmToManualCategory(tag: Option<string>, mapping: map<string, string>): (r: Option<string>)
    ensures tag.Some? && tag.value in mapping ==> r == Some(mapping[tag.value])
    ensures tag.None? || tag.value !in mapping ==> r == tag
  {
    match tag
    case Some(t) => if t in mapping then Some(mapping[t]) else tag
    case None => None
  }

  /** Python's `p in s` on strings. */
  predicate IsSubstring(p: string, s: string) {
    exists i :: 0 <= i <= |s| - |p| && OccursAt(p, s, i)
  }

  predicate OccursAt(p: string, s: string, i: int) {
    0 <= i && i + |p| <= |s| && s[i..i + |p|] == p
  }

  /** `[s for s in terms if s in tags]`. */
  function MatchingTerms(terms: seq<string>, tags: string): (s: seq<string>)
    ensures |s| <= |terms|
  {
    if terms == [] then []
    else (if IsSubstring(terms[0], tags) then [terms[0]] else []) + MatchingTerms(terms[1..], tags)
  }

  /** `tag_conditions(tags, healthcare_list)`. */
  function TagConditions(tags: string, healthcare: seq<string>): Option<string> {
    var s := MatchingTerms(healthcare, tags);
    if s != [] then Some(s[0])
    else if IsSubstring("sport", tags) then Some("sport")
    else None
  }

  lemma {:induction false} MatchingTermsFirst(terms: seq<string>, tags: string)
    ensures MatchingTerms(terms, tags) == [] <==> forall j :: 0 <= j < |terms| ==> !IsSubstring(terms[j], tags)
    ensures MatchingTerms(terms, tags) != [] ==>
      exists i :: 0 <= i < |terms| && MatchingTerms(terms, tags)[0] == terms[i] && IsSubstring(terms[i], tags) &&
        forall j :: 0 <= j < i ==> !IsSubstring(terms[j], tags)
  {
    if terms != [] {
      MatchingTermsFirst(terms[1..], tags);
      if !IsSubstring(terms[0], tags) && MatchingTerms(terms[1..], tags) != [] {
        var i :| 0 <= i < |terms[1..]| && MatchingTerms(terms[1..], tags)[0] == terms[1..][i] &&
          IsSubstring(terms[1..][i], tags) && forall j :: 0 <= j < i ==> !IsSubstring(terms[1..][j], tags);
        assert forall j :: 0 <= j < i + 1 ==> !IsSubstring(terms[j], tags) by {
          forall j | 0 <= j < i + 1 ensures !IsSubstring(terms[j], tags) {
            if j > 0 { assert terms[j] == terms[1..][j - 1]; }
          }
        }
        assert MatchingTerms(terms, tags)[0] == terms[i + 1];
      }
      if MatchingTerms(terms, tags) == [] {
        forall j | 0 <= j < |terms| ensures !IsSubstring(terms[j], tags) {
          if j > 0 { assert terms[j] == terms[1..][j - 1]; }
        }
      }
    }
  }

  /** The first healthcare term, in list order, found in the tags wins; "sport" is looked for
      only when no term matches; otherwise there is no value. */
  lemma TagConditionsFirstMatch(tags: string, healthcare: seq<string>)
    ensures (exists j :: 0 <= j < |healthcare| && IsSubstring(healthcare[j], tags)) ==>
      exists i :: 0 <= i < |healthcare| && TagConditions(tags, healthcare) == Some(healthcare[i]) &&
        IsSubstring(healthcare[i], tags) && forall j :: 0 <= j < i ==> !IsSubstring(healthcare[j], tags)
    ensures (forall j :: 0 <= j < |healthcare| ==> !IsSubstring(healthcare[j], tags)) ==>
      TagConditions(tags, healthcare) == (if IsSubstring("sport", tags) then Some("sport") else None)
  {
    MatchingTermsFirst(healthcare, tags);
  }

  // ---------------------------------------------------------------------------------------
  // df_manipulations

  /** One row of the raw pyrosm POI table; `tags` is the column after `astype(str)`. */
  datatype PoiRecord = PoiRecord(
    amenity: Option<string>, shop: Option<string>, leisure: Option<string>,
    tags: string, geometry: Geometry)

  /** One output row: `h3_index, category`. */
  datatype DestinationRow = DestinationRow(h3Index: H3Index, category: string)

  /** The first present value of a list. */
  function FirstPresent(xs: seq<Option<string>>): (r: Option<string>)
    ensures r.None? <==> forall i :: 0 <= i < |xs| ==> xs[i].None?
    ensures r.Some? ==> exists i :: 0 <= i < |xs| && xs[i] == r && forall j :: 0 <= j < i ==> xs[j].None?
  {
    if xs == [] then None
    else if xs[0].Some? then xs[0]
    else
      var r := FirstPresent(xs[1..]);
      assert forall i :: 1 <= i < |xs| ==> xs[i] == xs[1..][i - 1];
      r
  }

  /** The POI type of a record: the first non-null of amenity, shop, leisure and the tag search. */
  function PoiType(rec: PoiRecord, healthcare: seq<string>): Option<string> {
    FirstPresent([rec.amenity, rec.shop, rec.leisure, TagConditions(rec.tags, healthcare)])
  }

  /** The cells a cover value stands for after `explode`, nulls dropped. */
  function CellList(v: H3Value): seq<H3Index> {
    match v
    case Cells(cs) => cs
    case Cell(c) => [c]
    case NoValue => []
  }

  /** The output rows of one record with category `category` and cover `v`. */
  function RecordRows(category: Option<string>, v: H3Value, categorySet: set<string>): (rows: seq<DestinationRow>)
    ensures forall i :: 0 <= i < |rows| ==> rows[i].category in categorySet
  {
    if category.Some? && category.value in categorySet then
      seq(|CellList(v)|, i requires 0 <= i < |CellList(v)| => DestinationRow(CellList(v)[i], category.value))
    else []
  }

  /** The parameters of one `df_manipulations` call. */
  datatype Settings = Settings(
    api: H3Api, healthcare: seq<string>, categorySet: set<string>, mapping: map<string, string>)

  /** The rows of a table, record by record: each record whose category is kept contributes
      one row per covering cell, in order; a record whose geometry raises makes the call fail. */
  function TableRows(pois: seq<PoiRecord>, st: Settings): Option<seq<DestinationRow>> {
    if pois == [] then Some([])
    else
      var rec := pois[|pois| - 1];
      match (TableRows(pois[..|pois| - 1], st), AllShapelyGeoToH3(rec.geometry, st.api))
      case (Some(rows), Some(v)) =>
        Some(rows + RecordRows(OsmToManualCategory(PoiType(rec, st.healthcare), st.mapping), v, st.categorySet))
      case _ => None
  }

  /** The output table of `df_manipulations`. An empty POI table fails: the row-wise `apply`
      that builds `no_header` cannot read `tags` on an empty frame, returns a frame, and
      assigning that frame to one column raises. */
  function Destinations(pois: seq<PoiRecord>, st: Settings): Option<seq<DestinationRow>> {
    if pois == [] then None else TableRows(pois, st)
  }

  /** `Series.fillna(other)`: keep present values, fill the missing ones from `other`. */
  function FillNa(col: seq<Option<string>>, other: seq<Option<string>>): (r: seq<Option<string>>)
    requires |col| == |other|
    ensures |r| == |col|
    ensures forall i :: 0 <= i < |col| ==> r[i] == if col[i].Some? then col[i] else other[i]
  {
    seq(|col|, i requires 0 <= i < |col| => if col[i].Some? then col[i] else other[i])
  }

  /** `explode('h3_index')` over the category and cover columns: a list becomes one row per
      element, an empty list or a missing value one row with a null cell. */
  function Explode(category: seq<Option<string>>, cover: seq<H3Value>): (rows: seq<(Option<string>, Option<H3Index>)>)
    requires |category| == |cover|
    ensures |rows| >= |category|
  {
    if category == [] then []
    else
      var n := |category| - 1;
      Explode(category[..n], cover[..n]) + ExplodeOne(category[n], cover[n])
  }

  function ExplodeOne(c: Option<string>, v: H3Value): (rows: seq<(Option<string>, Option<H3Index>)>)
    ensures rows != []
  {
    match v
    case Cells(cs) =>
      if cs == [] then [(c, None)] else seq(|cs|, i requires 0 <= i < |cs| => (c, Some(cs[i])))
    case Cell(x) => [(c, Some(x))]
    case NoValue => [(c, None)]
  }

  /** `h3_df[h3_df['category'].isin(category_set)]`: a null category is never kept. */
  function KeepCategories(rows: seq<(Option<string>, Option<H3Index>)>, categorySet: set<string>): (r: seq<(Option<string>, Option<H3Index>)>)
    ensures forall i :: 0 <= i < |r| ==> r[i].0.Some? && r[i].0.value in categorySet
  {
    if rows == [] then []
    else
      var n := |rows| - 1;
      KeepCategories(rows[..n], categorySet)
        + (if rows[n].0.Some? && rows[n].0.value in categorySet then [rows[n]] else [])
  }

  /** `h3_df[~h3_df['h3_index'].isna()]`. */
  function DropMissingCells(rows: seq<(Option<string>, Option<H3Index>)>): (r: seq<(Option<string>, Option<H3Index>)>)
    ensures forall i :: 0 <= i < |r| ==> r[i].1.Some? && r[i] in rows
  {
    if rows == [] then []
    else
      var n := |rows| - 1;
      DropMissingCells(rows[..n]) + (if rows[n].1.Some? then [rows[n]] else [])
  }

  /** `h3_df[['h3_index','category']]` on rows where both are present. */
  function SelectColumns(rows: seq<(Option<string>, Option<H3Index>)>): (r: seq<DestinationRow>)
    requires forall i :: 0 <= i < |rows| ==> rows[i].0.Some? && rows[i].1.Some?
    ensures |r| == |rows|
  {
    seq(|rows|, i requires 0 <= i < |rows| => DestinationRow(rows[i].1.value, rows[i].0.value))
  }

  lemma {:induction false} KeepCategoriesAppend(a: seq<(Option<string>, Option<H3Index>)>, b: seq<(Option<string>, Option<H3Index>)>, s: set<string>)
    ensures KeepCategories(a + b, s) == KeepCategories(a, s) + KeepCategories(b, s)
    decreases |b|
  {
    if b != [] {
      var n := |b| - 1;
      assert (a + b)[..|a + b| - 1] == a + b[..n];
      KeepCategoriesAppend(a, b[..n], s);
    } else {
      assert a + b == a;
    }
  }

  lemma {:induction false} DropMissingAppend(a: seq<(Option<string>, Option<H3Index>)>, b: seq<(Option<string>, Option<H3Index>)>)
    ensures DropMissingCells(a + b) == DropMissingCells(a) + DropMissingCells(b)
    decreases |b|
  {
    if b != [] {
      var n := |b| - 1;
      assert (a + b)[..|a + b| - 1] == a + b[..n];
      DropMissingAppend(a, b[..n]);
    } else {
      assert a + b == a;
    }
  }

  /** A kept list of cells passes both filters whole. */
  lemma {:induction false} FiltersKeepPresent(rows: seq<(Option<string>, Option<H3Index>)>, s: set<string>)
    requires forall i :: 0 <= i < |rows| ==> rows[i].0.Some? && rows[i].0.value in s && rows[i].1.Some?
    ensures DropMissingCells(KeepCategories(rows, s)) == rows
  {
    if rows != [] {
      FiltersKeepPresent(rows[..|rows| - 1], s);
    }
  }

  /** A dropped category removes every row of the record. */
  lemma {:induction false} KeepCategoriesDropsAll(rows: seq<(Option<string>, Option<H3Index>)>, s: set<string>)
    requires forall i :: 0 <= i < |rows| ==> !(rows[i].0.Some? && rows[i].0.value in s)
    ensures KeepCategories(rows, s) == []
  {
    if rows != [] {
      KeepCategoriesDropsAll(rows[..|rows| - 1], s);
    }
  }

  /** One record after explode and both filters. */
  lemma OneRecordRows(c: Option<string>, v: H3Value, s: set<string>)
    ensures var kept := DropMissingCells(KeepCategories(ExplodeOne(c, v), s));
      (forall i :: 0 <= i < |kept| ==> kept[i].0.Some? && kept[i].1.Some?) &&
      SelectColumns(kept) == RecordRows(c, v, s)
  {
    var rows := ExplodeOne(c, v);
    var kept := DropMissingCells(KeepCategories(rows, s));
    if !(c.Some? && c.value in s) {
      KeepCategoriesDropsAll(rows, s);
      assert kept == [];
    } else if CellList(v) == [] {
      assert rows[..0] == [];
      assert kept == [];
    } else {
      FiltersKeepPresent(rows, s);
      ExplodeOneCells(c, v);
      var sel := SelectColumns(kept);
      var rec := RecordRows(c, v, s);
      assert |sel| == |rec|;
      forall i | 0 <= i < |sel| ensures sel[i] == rec[i] {
      }
    }
  }

  /** A non-empty cover explodes to one row per cell. */
  lemma ExplodeOneCells(c: Option<string>, v: H3Value)
    requires CellList(v) != []
    ensures var rows := ExplodeOne(c, v);
      |rows| == |CellList(v)| && forall i :: 0 <= i < |rows| ==> rows[i] == (c, Some(CellList(v)[i]))
  {
  }

  /** The rows of each record, concatenated in record order. */
  function RowsOf(category: seq<Option<string>>, cover: seq<H3Value>, s: set<string>): seq<DestinationRow>
    requires |category| == |cover|
  {
    if category == [] then []
    else
      var n := |category| - 1;
      RowsOf(category[..n], cover[..n], s) + RecordRows(category[n], cover[n], s)
  }

  /** Explode, the category filter, the null filter and the column selection, applied to the
      whole table, give each record's rows in record order. */
  lemma {:induction false} PipelineColumns(category: seq<Option<string>>, cover: seq<H3Value>, s: set<string>)
    requires |category| == |cover|
    ensures var kept := DropMissingCells(KeepCategories(Explode(category, cover), s));
      (forall i :: 0 <= i < |kept| ==> kept[i].0.Some? && kept[i].1.Some?) &&
      SelectColumns(kept) == RowsOf(category, cover, s)
  {
    if category != [] {
      var n := |category| - 1;
      PipelineColumns(category[..n], cover[..n], s);
      var front := Explode(category[..n], cover[..n]);
      var last := ExplodeOne(category[n], cover[n]);
      assert Explode(category, cover) == front + last;
      var k1 := DropMissingCells(KeepCategories(front, s));
      var k2 := DropMissingCells(KeepCategories(last, s));
      assert DropMissingCells(KeepCategories(front + last, s)) == k1 + k2 by {
        KeepCategoriesAppend(front, last, s);
        DropMissingAppend(KeepCategories(front, s), KeepCategories(last, s));
      }
      OneRecordRows(category[n], cover[n], s);
      SelectColumnsAppend(k1, k2);
    }
  }

  /** With every record's category and cover computed, the table is their rows. */
  lemma {:induction false} DestinationsByColumns(pois: seq<PoiRecord>, category: seq<Option<string>>, cover: seq<H3Value>, st: Settings)
    requires |category| == |cover| == |pois|
    requires forall i :: 0 <= i < |pois| ==> category[i] == OsmToManualCategory(PoiType(pois[i], st.healthcare), st.mapping)
    requires forall i :: 0 <= i < |pois| ==> AllShapelyGeoToH3(pois[i].geometry, st.api) == Some(cover[i])
    ensures TableRows(pois, st) == Some(RowsOf(category, cover, st.categorySet))
  {
    if pois != [] {
      var n := |pois| - 1;
      DestinationsByColumns(pois[..n], category[..n], cover[..n], st);
    }
  }

  lemma SelectColumnsAppend(a: seq<(Option<string>, Option<H3Index>)>, b: seq<(Option<string>, Option<H3Index>)>)
    requires forall i :: 0 <= i < |a| ==> a[i].0.Some? && a[i].1.Some?
    requires forall i :: 0 <= i < |b| ==> b[i].0.Some? && b[i].1.Some?
    ensures forall i :: 0 <= i < |a + b| ==> (a + b)[i].0.Some? && (a + b)[i].1.Some?
    ensures SelectColumns(a + b) == SelectColumns(a) + SelectColumns(b)
  {
    assert forall i :: 0 <= i < |a + b| ==> (a + b)[i].0.Some? && (a + b)[i].1.Some? by {
      forall i | 0 <= i < |a + b| ensures (a + b)[i].0.Some? && (a + b)[i].1.Some? {
        if i >= |a| { assert (a + b)[i] == b[i - |a|]; }
      }
    }
  }

  /** The category column: `poi_type` as the fillna chain over amenity, shop, leisure and the
      tag search, then `osm_to_manual_category` on each value. */
  function CategoryColumn(pois: seq<PoiRecord>, st: Settings): (category: seq<Option<string>>)
    ensures |category| == |pois|
    ensures forall i :: 0 <= i < |pois| ==>
      category[i] == OsmToManualCategory(PoiType(pois[i], st.healthcare), st.mapping)
  {
    var amenity := seq(|pois|, i requires 0 <= i < |pois| => pois[i].amenity);
    var withShop := FillNa(amenity, seq(|pois|, i requires 0 <= i < |pois| => pois[i].shop));
    var withLeisure := FillNa(withShop, seq(|pois|, i requires 0 <= i < |pois| => pois[i].leisure));
    var noHeader := seq(|pois|, i requires 0 <= i < |pois| => TagConditions(pois[i].tags, st.healthcare));
    var poiType := FillNa(withLeisure, noHeader);
    var category := seq(|pois|, i requires 0 <= i < |pois| => OsmToManualCategory(poiType[i], st.mapping));
    assert forall i :: 0 <= i < |pois| ==>
      category[i] == OsmToManualCategory(PoiType(pois[i], st.healthcare), st.mapping) by {
      forall i | 0 <= i < |pois|
        ensures category[i] == OsmToManualCategory(PoiType(pois[i], st.healthcare), st.mapping)
      {
        PoiTypeIsFirstPresent(pois[i], st.healthcare);
      }
    }
    category
  }

  /** `pois.geometry.apply(all_shapley_geo_to_h3)`: the cover of every record, or None when
      the conversion of some record raises. */
  function CoverColumn(pois: seq<PoiRecord>, api: H3Api): (cover: Option<seq<H3Value>>)
    ensures cover.Some? ==> |cover.value| == |pois|
    ensures cover.Some? ==>
      forall j :: 0 <= j < |pois| ==> AllShapelyGeoToH3(pois[j].geometry, api) == Some(cover.value[j])
    ensures cover.None? ==> exists j :: 0 <= j < |pois| && AllShapelyGeoToH3(pois[j].geometry, api).None?
  {
    if pois == [] then Some([])
    else
      var n := |pois| - 1;
      var front := CoverColumn(pois[..n], api);
      assert forall j :: 0 <= j < n ==> pois[..n][j] == pois[j];
      match (front, AllShapelyGeoToH3(pois[n].geometry, api))
      case (Some(cs), Some(v)) => Some(cs + [v])
      case _ => None
  }

  /** `df_manipulations`: the POI table is rewritten column by column, then the cover column
      is exploded and the rows filtered. An empty table, or a geometry whose conversion
      raises, makes the whole call fail (None). */
  method DfManipulations(pois: seq<PoiRecord>, st: Settings) returns (result: Option<seq<DestinationRow>>)
    ensures result == Destinations(pois, st)
  {
    if pois == [] {
      return None;
    }
    var category := CategoryColumn(pois, st);
    var cover := CoverColumn(pois, st.api);
    if cover.None? {
      var j :| 0 <= j < |pois| && AllShapelyGeoToH3(pois[j].geometry, st.api).None?;
      DestinationsFails(pois, j, st);
      return None;
    }
    var rows := Explode(category, cover.value);
    rows := KeepCategories(rows, st.categorySet);
    rows := DropMissingCells(rows);
    PipelineColumns(category, cover.value, st.categorySet);
    DestinationsByColumns(pois, category, cover.value, st);
    result := Some(SelectColumns(rows));
  }

  /** The fillna chain of a record picks the first present of its four sources. */
  lemma PoiTypeIsFirstPresent(rec: PoiRecord, healthcare: seq<string>)
    ensures PoiType(rec, healthcare) ==
      var t := if rec.amenity.Some? then rec.amenity else rec.shop;
      var t := if t.Some? then t else rec.leisure;
      if t.Some? then t else TagConditions(rec.tags, healthcare)
  {
    var tag := TagConditions(rec.tags, healthcare);
    var xs := [rec.amenity, rec.shop, rec.leisure, tag];
    var ys, zs, ws := [rec.shop, rec.leisure, tag], [rec.leisure, tag], [tag];
    assert xs[1..] == ys && ys[1..] == zs && zs[1..] == ws && ws[1..] == [];
    if rec.amenity.None? {
      assert FirstPresent(xs) == FirstPresent(ys);
      if rec.shop.None? {
        assert FirstPresent(ys) == FirstPresent(zs);
        if rec.leisure.None? {
          assert FirstPresent(zs) == FirstPresent(ws);
        }
      }
    }
  }

  /** One failing record makes the whole table fail. */
  lemma {:induction false} DestinationsFails(pois: seq<PoiRecord>, i: nat, st: Settings)
    requires i < |pois| && AllShapelyGeoToH3(pois[i].geometry, st.api).None?
    ensures Destinations(pois, st).None?
    decreases |pois|
  {
    var n := |pois| - 1;
    if i < n {
      assert pois[..n][i] == pois[i];
      DestinationsFails(pois[..n], i, st);
    }
  }

  /** The empty POI table makes `df_manipulations` fail. */
  lemma EmptyTableFails(st: Settings)
    ensures Destinations([], st).None?
  {
  }

  /** The call fails only for the empty table or a record whose geometry raises. */
  lemma {:induction false} DestinationsFailsOnlyIf(pois: seq<PoiRecord>, st: Settings)
    requires Destinations(pois, st).None?
    ensures pois == [] || exists i :: 0 <= i < |pois| && AllShapelyGeoToH3(pois[i].geometry, st.api).None?
    decreases |pois|
  {
    if pois != [] {
      var n := |pois| - 1;
      if AllShapelyGeoToH3(pois[n].geometry, st.api).Some? {
        assert TableRows(pois[..n], st).None?;
        assert pois[..n] != [];
        DestinationsFailsOnlyIf(pois[..n], st);
        var i :| 0 <= i < n && AllShapelyGeoToH3(pois[..n][i].geometry, st.api).None?;
        assert pois[..n][i] == pois[i];
      }
    }
  }

  /** What the output promises: every row's category is in the category set; each record
      contributes exactly its covering cells, in order, when its category is kept. */
  lemma {:induction false} DestinationsRows(pois: seq<PoiRecord>, st: Settings)
    requires Destinations(pois, st).Some?
    ensures var rows := Destinations(pois, st).value;
      forall i :: 0 <= i < |rows| ==> rows[i].category in st.categorySet
  {
    if |pois| > 1 {
      DestinationsRows(pois[..|pois| - 1], st);
    } else {
      assert pois[..0] == [] && TableRows(pois[..0], st) == Some([]);
    }
  }

  /** A single record with a kept category yields one row per covering cell, in cover order;
      with any other category it yields nothing. */
  lemma SingleRecordRows(rec: PoiRecord, st: Settings)
    requires AllShapelyGeoToH3(rec.geometry, st.api).Some?
    ensures Destinations([rec], st).Some?
    ensures var c := OsmToManualCategory(PoiType(rec, st.healthcare), st.mapping);
      var cells := CellList(AllShapelyGeoToH3(rec.geometry, st.api).value);
      var rows := Destinations([rec], st).value;
      if c.Some? && c.value in st.categorySet
      then |rows| == |cells| && forall i :: 0 <= i < |rows| ==> rows[i] == DestinationRow(cells[i], c.value)
      else rows == []
  {
    assert [rec][..0] == [];
    var c := OsmToManualCategory(PoiType(rec, st.healthcare), st.mapping);
    var v := AllShapelyGeoToH3(rec.geometry, st.api).value;
    assert TableRows([rec], st) == Some([] + RecordRows(c, v, st.categorySet));
    assert [] + RecordRows(c, v, st.categorySet) == RecordRows(c, v, st.categorySet);
  }
}
