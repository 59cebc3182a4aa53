/** The grid wrapper: turns the region boundary into H3 cell ids (by
    polyfill) and turns cell ids back into polygons.

    The H3 library itself is not modelled: `polygon_to_cells` and
    `cell_to_boundary` are parameters of the operations, so every property
    below holds whatever the library computes. */
module H3Grid {
  import opened Wrappers

  type CellId = string

  /** A vertex as H3 reports it: latitude first. */
  datatype LatLng = LatLng(lat: real, lng: real)

  /** A vertex as shapely and GeoJSON store it: x is the longitude, y the latitude. */
  datatype Coord = Coord(x: real, y: real)

  /** A shapely polygon: its exterior ring and its interior rings (holes). */
  datatype Shape = Shape(exterior: seq<Coord>, interiors: seq<seq<Coord>>)

  /** The geometry kinds the boundary layer can hold. */
  datatype Geometry = Polygon(shape: Shape) | MultiPolygon(parts: seq<Shape>)

  /** shapely's `is_empty`: a polygon is empty when its exterior ring has no
      vertex, a multi-polygon when every one of its parts is (in particular
      when it has none). */
  predicate IsEmpty(g: Geometry)
  {
    match g
    case Polygon(s) => |s.exterior| == 0
    case MultiPolygon(parts) => forall p :: p in parts ==> |p.exterior| == 0
  }

  /** The GeoJSON-like mapping handed to polyfill. */
  datatype GeoJsonPolygon = GeoJsonPolygon(kind: string, coordinates: seq<seq<Coord>>)

  /** The `AttributeError` raised when the geometry has no `exterior`. */
  datatype GeometryError = NoExterior

  /** The mapping built from a polygon: type "Polygon" and one ring, its
      exterior; the interior rings are not part of it. */
  function ExteriorMapping(s: Shape): (m: GeoJsonPolygon)
    ensures m.kind == "Polygon"
    ensures |m.coordinates| == 1 && m.coordinates[0] == s.exterior
  {
    GeoJsonPolygon("Polygon", [s.exterior])
  }

  /** `_geom_to_h3_cells`: `[]` for an empty geometry, otherwise the
      polyfill of the exterior mapping. A geometry with several parts has no
      exterior and raises. */
  function GeomToH3Cells(geom: Geometry, resolution: int,
                         polygonToCells: (GeoJsonPolygon, int) -> seq<CellId>)
    : (r: Result<seq<CellId>, GeometryError>)
    ensures IsEmpty(geom) ==> r == Success([])
    ensures !IsEmpty(geom) && geom.Polygon? ==>
              r == Success(polygonToCells(GeoJsonPolygon("Polygon", [geom.shape.exterior]), resolution))
    ensures !IsEmpty(geom) && geom.MultiPolygon? ==> r == Failure(NoExterior)
  {
    if IsEmpty(geom) then Success([])
    else match geom
      case Polygon(s) => Success(polygonToCells(ExteriorMapping(s), resolution))
      case MultiPolygon(_) => Failure(NoExterior)
  }

  /** An empty geometry never reaches polyfill: the result is the same
      whatever polyfill would compute. */
  lemma EmptyGeometrySkipsPolyfill(geom: Geometry, resolution: int,
                                   p1: (GeoJsonPolygon, int) -> seq<CellId>,
                                   p2: (GeoJsonPolygon, int) -> seq<CellId>)
    requires IsEmpty(geom)
    ensures GeomToH3Cells(geom, resolution, p1) == GeomToH3Cells(geom, resolution, p2) == Success([])
  {
  }

  /** Holes play no part: two polygons with the same exterior ring get the same
      cells, so a cell lying inside a hole is produced whenever polyfill
      produces it for the exterior alone. */
  lemma HolesAreNotExcluded(s1: Shape, s2: Shape, resolution: int,
                            polygonToCells: (GeoJsonPolygon, int) -> seq<CellId>)
    requires s1.exterior == s2.exterior
    ensures GeomToH3Cells(Polygon(s1), resolution, polygonToCells)
         == GeomToH3Cells(Polygon(s2), resolution, polygonToCells)
  {
  }

  // ---------------------------------------------------------------------
  // Cell polygons
  // ---------------------------------------------------------------------

  /** `[(lon, lat) for lat, lon in boundary]`: the vertex count and order
      are kept, and each vertex has its two components exchanged. */
  function ToLonLat(boundary: seq<LatLng>): (coords: seq<Coord>)
    ensures |coords| == |boundary|
    ensures forall k :: 0 <= k < |boundary| ==> coords[k] == Coord(boundary[k].lng, boundary[k].lat)
  {
    if boundary == [] then []
    else [Coord(boundary[0].lng, boundary[0].lat)] + ToLonLat(boundary[1..])
  }

  /** The inverse swap, back to H3's (lat, lng) order. */
  function ToLatLng(coords: seq<Coord>): seq<LatLng>
  {
    if coords == [] then []
    else [LatLng(coords[0].y, coords[0].x)] + ToLatLng(coords[1..])
  }

  /** Swapping back recovers the boundary exactly: no vertex is lost, added,
      moved or altered. */
  lemma {:induction false} ToLonLatRoundTrip(boundary: seq<LatLng>)
    ensures ToLatLng(ToLonLat(boundary)) == boundary
  {
    if boundary != [] {
      ToLonLatRoundTrip(boundary[1..]);
      var coords := ToLonLat(boundary);
      assert coords[1..] == ToLonLat(boundary[1..]);
    }
  }

  /** A shapely `Polygon` built from a vertex list (the shell as given). */
  datatype CellPolygon = CellPolygon(shell: seq<Coord>)

  /** The GeoDataFrame built from the cell list: its `h3` and `geometry` columns. */
  datatype CellGrid = CellGrid(h3: seq<CellId>, geometry: seq<CellPolygon>)

  /** `h3_cells_to_gdf`: one polygon per cell, in the order of the cell list,
      each the cell's boundary with every vertex turned to (lon, lat); the
      `h3` column is the cell list itself. */
  method H3CellsToGdf(cells: seq<CellId>, cellToBoundary: CellId -> seq<LatLng>) returns (gdf: CellGrid)
    ensures gdf.h3 == cells
    ensures |gdf.geometry| == |cells|
    ensures forall i :: 0 <= i < |cells| ==> gdf.geometry[i].shell == ToLonLat(cellToBoundary(cells[i]))
  {
    var polys: seq<CellPolygon> := [];
    for i := 0 to |cells|
      invariant |polys| == i
      invariant forall j :: 0 <= j < i ==> polys[j].shell == ToLonLat(cellToBoundary(cells[j]))
    {
      var boundary := cellToBoundary(cells[i]);
      var coords := ToLonLat(boundary);
      polys := polys + [CellPolygon(coords)];
    }
    gdf := CellGrid(cells, polys);
  }
}
