# Forest map radius filter and HTML escaping, in Dafny

This project models the two pure pieces of the forest map viewer:

- **The radius filter of `main.js`.** Each forest feature stands for one point. That point is the shoelace centroid of a polygon ring (`calculatePolygonCentroid`). It is the outer ring of a Polygon, or the outer ring of the first part of a MultiPolygon (sections 3.1.6 and 3.1.7 of RFC 7946). The centroid is compared with the user's position using the haversine great-circle distance with R = 6371 km (`regnUtAvstandKm`). `isFeatureWithinRadius` gives the verdict for one feature and turns every exception into `false`. The `Array.filter` call keeps the features that pass. The colour lookup `hentSkogFarge` is modelled as well.
- **`escapeHtml` of `script.js`.** It is a chain of five global replacements, with `&` replaced first.

Coordinates are Dafny `real`s. A position is `[lon, lat]`; the reference point is `[lat, lon]`. The centroid loop is a `method` with a `for` loop. It is proved equal to the specification function `Centroid`, and the properties are proved about that function. Everything else is a function, as in the source.

`Math.sin`, `Math.cos`, `Math.sqrt` and `Math.atan2` are passed in as a `Trig` value of four functions. The lemmas about distance need only `MinimalAxioms`: sin 0 = 0, sin(-x)² = sin(x)², √0 = 0, √1 = 1 and atan2(0, 1) = 0.

Three facts about the code shape the model:
- The radius is `parseFloat` of a form field and is never validated (main.js:300), so any real radius is accepted.
- Rings of one or two positions pass the guard at main.js:88, which rejects only a missing or empty ring.
- `Array.filter` keeps the input order (main.js:328-330), and the model proves that it does.

JavaScript's `[]` is truthy. So `coordinates: []` passes the `!geom.coordinates` guard and fails one step later:
- For a Polygon, `coordinates[0]` is `undefined`, which the centroid's guard rejects.
- For a MultiPolygon, reading `undefined[0]` is a `TypeError`.

Both are caught and give `false`. `Classify` keeps the two exceptions apart as `InvalidCoordinates` and `UndefinedIndex`.

A closing position (the first one repeated at the end) adds a zero-length edge, so it leaves the shoelace sums unchanged (`ClosingEdgeSum`). The mean fallback, however, counts that repeated position twice.

## Model

| member | source | states |
|---|---|---|
| PolygonCentroid.Centroid | main.js:87-123 | The centroid fails, with the invalid-coordinates error, exactly when the ring is empty; any non-empty ring (even of one or two positions) yields a point |
| PolygonCentroid.EdgeSum | main.js:97-108 | No contract of its own: the first `k` cyclic edge terms `(i, (i+1) mod n)` the loop accumulates; its properties are stated by EdgeSumReverse, ClosingEdgeSum and CalculatePolygonCentroid's loop invariants |
| PolygonCentroid.SignedArea | main.js:97-110 | No contract of its own: half the cyclic cross-product sum; CentroidReverse states that reversal negates it and UnitSquareCentroid that the counter-clockwise unit square has area 1 |
| PolygonCentroid.CoordinateSum | main.js:113-114 | No contract of its own: the left-to-right `reduce` of one coordinate; CoincidentRingCentroid and ShortRingCentroid state the mean it yields |
| PolygonCentroid.CalculatePolygonCentroid | main.js:87-123 | The accumulating loop over cyclic edges `(i, (i+1) mod n)`, the halving of `area`, the threshold test and the in-place rescaling of `cx`, `cy` compute exactly `Centroid` of the ring |
| PolygonCentroid.CoincidentRingCentroid | main.js:110-117 | A ring of one repeated position has signed area 0 and its centroid is that position (the mean fallback, not a division by zero) |
| PolygonCentroid.DegenerateTriangleCentroid | main.js:110-117 | The ring `[(5,5),(5,5),(5,5)]` has centroid `(5,5)` |
| PolygonCentroid.ShortRingCentroid | main.js:88-117 | Rings of one or two positions are not errors: area 0, centroid the point itself or the midpoint |
| PolygonCentroid.UnitSquareCentroid | main.js:97-122 | The counter-clockwise unit square has signed area 1 and centroid `(0.5, 0.5)` by the shoelace formula |
| PolygonCentroid.EdgeSumReverse | main.js:97-108 | Reversing a ring negates each of the three accumulated sums (area, x-moment, y-moment) |
| PolygonCentroid.CentroidReverse | main.js:110-122 | Reversing the winding negates the signed area and leaves the centroid unchanged, because only the threshold test uses the absolute value |
| PolygonCentroid.ClosingEdgeSum | main.js:97-108 | Repeating the first position at the end of the ring leaves each accumulated sum unchanged |
| PolygonCentroid.ClosedRingCentroid | main.js:97-122 | A non-degenerate ring has the same signed area and centroid whether or not it is written closed |
| Haversine.HalfChordSquare | main.js:459-462 | No contract of its own: the haversine term `a`; DistanceToSelf states it is 0 for identical points and DistanceSymmetric that it is unchanged when the points are swapped |
| Haversine.DistanceKm | main.js:457-465 | No contract of its own: `R * 2 * atan2(sqrt(a), sqrt(1 - a))` with R = 6371; its properties are DistanceToSelf and DistanceSymmetric |
| Haversine.DistanceToSelf | main.js:457-465 | The haversine term and the distance from a point to itself are 0 |
| Haversine.DistanceSymmetric | main.js:457-465 | The haversine term and the distance are unchanged when the two (lat, lon) points are swapped |
| RadiusFilter.CentroidWithin | main.js:154-160 | No contract of its own: the centroid `[lon, lat]` is passed as (lat = component 1, lon = component 0) and compared with `<=`; BoundaryIsInclusive and CentreIsWithinRadius state its properties |
| RadiusFilter.TestCentroid | main.js:145-160 | The distance test fails exactly when the centroid computation raised, and with that same error |
| RadiusFilter.Classify | main.js:134-160 | The try block: missing geometry or another geometry type gives `false` without an exception; an exception is raised exactly for a Polygon or MultiPolygon whose representative ring is absent or empty, and it is the `undefined`-index error exactly for a MultiPolygon with an empty coordinate array |
| RadiusFilter.IsFeatureWithinRadius | main.js:133-165 | Every exception of the try block yields `false`; the verdict is true exactly when the geometry has a representative ring, that ring is non-empty, and its centroid `[lon, lat]`, passed to the distance as (lat = component 1, lon = component 0), is at most `radiusKm` away |
| RadiusFilter.MalformedFeatureRejected | main.js:133-165 | Missing geometry, another geometry type, an empty coordinate array or an empty outer ring gives `false`, never an error |
| RadiusFilter.PolygonUsesOuterRing | main.js:143-160 | A Polygon is judged on the centroid of `coordinates[0]` with the axis-order swap and the `<=` test |
| RadiusFilter.MultiPolygonUsesFirstOuterRing | main.js:146-160 | A MultiPolygon is judged on the centroid of `coordinates[0][0]` alone |
| RadiusFilter.BoundaryIsInclusive | main.js:154-160 | A feature whose centroid is exactly `radiusKm` away is kept |
| RadiusFilter.CentreIsWithinRadius | main.js:154-160 | A feature whose centroid is the reference point itself is kept for any non-negative radius |
| RadiusFilter.FilterWithinRadius | main.js:328-330 | The filtered collection is no longer than the input, holds only input features that pass the test, and holds every input feature that passes |
| RadiusFilter.FilterIsOrderedSelection | main.js:328-330 | The filtered collection is the input's subsequence at strictly increasing positions, and a position is taken exactly when its feature passes the test |
| RadiusFilter.FilterConcat | main.js:328-330 | Filtering a concatenation equals concatenating the filtered parts |
| RadiusFilter.MalformedFeatureSkipped | main.js:328-330 | A feature without a usable ring, anywhere in the collection, is dropped and the rest is filtered as if it were absent |
| ForestColour.ForestFillColour | main.js:171-177 | Each of `needleleaved`, `broadleaved`, `mixed` gets its own colour exactly when it is the leaf type; any other or missing leaf type gets `#74c69d` |
| HtmlEscape.ReplaceAll | script.js:138-142 | A global one-character replacement leaves a string without that character unchanged, and its output has no occurrence of the character when the replacement has none |
| HtmlEscape.EscapeHtml | script.js:136-143 | No contract of its own: the five chained global replacements, `&` first; EscapeHtmlIsPerCharacter, NoMarkupInOutput, EscapeHtmlLength and EscapeHtmlRoundTrip state its properties |
| HtmlEscape.EscapeChar | script.js:138-142 | A character's escape differs from the character exactly when it is one of the five special characters, and then starts with `&` |
| HtmlEscape.EscapeHtmlChar | script.js:138-142 | On one character the five-step chain produces exactly that character's escape: an `&` introduced by a later step is not re-escaped |
| HtmlEscape.EscapeHtmlIsPerCharacter | script.js:137-142 | The five chained replacements equal the single per-character mapping joined in order |
| HtmlEscape.EscapeHtmlHomomorphic | script.js:137-142 | The escape of a concatenation is the concatenation of the escapes, and the empty string escapes to itself |
| HtmlEscape.NoMarkupInOutput | script.js:139-142 | The output contains no `<`, `>`, `"` or `'` |
| HtmlEscape.PlainTextUnchanged | script.js:137-142 | A string with none of the five special characters is returned unchanged |
| HtmlEscape.EscapeHtmlLength | script.js:137-142 | The output is at least as long as the input, with equality exactly when the input has no special character |
| HtmlEscape.AmpersandsBeginEntities | script.js:138-142 | Every `&` in the output begins one of `&amp;`, `&lt;`, `&gt;`, `&quot;`, `&#39;` |
| HtmlEscape.EscapeHtmlRoundTrip | script.js:136-143 | Decoding the five entities recovers the input, so the escape loses nothing |

## Left out

- Map and user interface: the Leaflet map, tile layers, layer toggles, popups, status text and event listeners are not modelled. They are user interface over a third-party library.
- Network: every `fetch` chain, including the Kartverket WFS loop around `escapeHtml`, is not modelled. It is network I/O.
- Browser APIs: geolocation callbacks and their error messages are not modelled. The reference point and radius are parameters.
- `UI_STATE` and `nullstillFilter` are not modelled. They are mutable user-interface state.
- The click query through Turf's `booleanPointInPolygon` is not modelled. It calls into a library whose code is not part of this model.
- The `console.warn` and `console.error` side channel is not modelled. An exception appears only as the `Err` of `Classify`.
- Floating point: there is no IEEE-754 rounding, no NaN and no Infinity, so a ring position with a missing component (which gives NaN in the source) is not represented. The threshold `1e-10` and `Math.PI` are exact reals.
- Haversine.DistanceKm: nothing is claimed about numeric accuracy or monotonicity. With uninterpreted trigonometric functions, only the zero-distance and symmetry properties follow.
- The `String(str)` coercion of `escapeHtml` is not modelled: its input is a string. Comma-to-dot coordinate parsing is not modelled either.
- A Dafny `string` is a sequence of Unicode scalar values, while a JavaScript string is a sequence of UTF-16 code units. Lone surrogates, legal in JavaScript, cannot be represented. `escapeHtml` leaves them unchanged, so no escaping behaviour is lost.
- ForestColour.ForestFillColour: features without a `properties` object (where the source throws) are not represented. Property values are strings only, since a non-string never equals the compared literals.
- GeoJson.Geometry: `Other` stands for any type name except Polygon and MultiPolygon. The model does not forbid `Other("Polygon")`, which has no counterpart in the source.
- The centroid method reads the ring as a `seq`. The source never changes the ring, so there is no aliasing to model.
