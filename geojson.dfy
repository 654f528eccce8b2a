/** The slice of the GeoJSON data model (RFC 7946) that the spatial filter reads. */
module GeoJson {

  /** A position `[x, y]`, that is `[longitude, latitude]` in decimal degrees
      (section 3.1.1 of RFC 7946). */
  type Position = (real, real)

  /** A linear ring: the positions of one polygon boundary. Closure (first
      position repeated at the end) is allowed but not required. */
  type Ring = seq<Position>

  /** A feature's `geometry` member, as the filter sees it.
      Polygon holds `coordinates` (rings, the first being the outer one,
      section 3.1.6); MultiPolygon holds `coordinates` (polygons, section
      3.1.7). Either array may be empty. Other stands for any other `type`
      that comes with coordinates; Missing for a feature without geometry,
      without a `type` or without `coordinates`. */
  datatype Geometry =
    | Polygon(rings: seq<Ring>)
    | MultiPolygon(polygons: seq<seq<Ring>>)
    | Other(typeName: string)
    | Missing

  /** A feature: its geometry and its string-valued `properties`. */
  datatype Feature = Feature(geometry: Geometry, properties: map<string, string>)
}
