/** The fill colour of a forest polygon by its OSM `leaf_type` (`hentSkogFarge`). */
module ForestColour {
  import opened Outcomes
  import opened GeoJson

  const NeedleleavedColour: string := "#2d6a4f"
  const BroadleavedColour: string := "#95d5b2"
  const MixedColour: string := "#52b788"
  const UnknownColour: string := "#74c69d"

  /** `properties.leaf_type`, if present. */
  function LeafType(f: Feature): Option<string> {
    if "leaf_type" in f.properties then Some(f.properties["leaf_type"]) else None
  }

  /** Each of the three known leaf types has its own colour; every other
      value, and a missing one, gets the fallback colour. */
  function ForestFillColour(f: Feature): (colour: string)
    ensures colour == NeedleleavedColour <==> LeafType(f) == Some("needleleaved")
    ensures colour == BroadleavedColour <==> LeafType(f) == Some("broadleaved")
    ensures colour == MixedColour <==> LeafType(f) == Some("mixed")
    ensures colour == UnknownColour <==>
      LeafType(f) !in {Some("needleleaved"), Some("broadleaved"), Some("mixed")}
  {
    var leafType := LeafType(f);
    if leafType == Some("needleleaved") then NeedleleavedColour
    else if leafType == Some("broadleaved") then BroadleavedColour
    else if leafType == Some("mixed") then MixedColour
    else UnknownColour
  }
}
