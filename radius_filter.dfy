/** The per-feature radius test (`isFeatureWithinRadius`) and the filter
    that applies it to the forest features. */
module RadiusFilter {
  import opened Outcomes
  import opened GeoJson
  import opened PolygonCentroid
  import opened Haversine

  /** A reference point `[lat, lon]`: latitude first, unlike a Position. */
  type LatLon = (real, real)

  /** The ring whose centroid stands for the geometry: the outer ring of a
      Polygon, the outer ring of the first polygon of a MultiPolygon; None
      for any other geometry or when that ring is absent. */
  function RepresentativeRing(g: Geometry): Option<Ring> {
    match g
    case Polygon(rings) => if rings == [] then None else Some(rings[0])
    case MultiPolygon(polygons) =>
      if polygons == [] || polygons[0] == [] then None else Some(polygons[0][0])
    case _ => None
  }

  /** The distance test once a centroid `[lon, lat]` is known: the centroid's
      second component is passed as latitude, its first as longitude, and
      the boundary is inclusive. */
  function CentroidWithin(t: Trig, c: Position, center: LatLon, radiusKm: real): bool {
    DistanceKm(t, center.0, center.1, c.1, c.0) <= radiusKm
  }

  /** The `try` block: either a verdict or the exception it raises.
      `coordinates[0]` of an empty Polygon array is `undefined`, which the
      centroid's guard rejects; `coordinates[0][0]` of an empty MultiPolygon
      array reads an index of `undefined`. */
  function Classify(t: Trig, f: Feature, center: LatLon, radiusKm: real): (r: Result<bool>)
    ensures (f.geometry.Missing? || f.geometry.Other?) ==> r == Ok(false)
    ensures r.Err? <==>
      && (f.geometry.Polygon? || f.geometry.MultiPolygon?)
      && (RepresentativeRing(f.geometry).None? || RepresentativeRing(f.geometry).value == [])
    ensures r.Err? ==> (r.error == UndefinedIndex <==> f.geometry.MultiPolygon? && f.geometry.polygons == [])
  {
    match f.geometry
    case Missing => Ok(false)
    case Other(_) => Ok(false)
    case Polygon(rings) =>
      if rings == [] then Err(InvalidCoordinates)
      else TestCentroid(t, Centroid(rings[0]), center, radiusKm)
    case MultiPolygon(polygons) =>
      if polygons == [] then Err(UndefinedIndex)
      else if polygons[0] == [] then Err(InvalidCoordinates)
      else TestCentroid(t, Centroid(polygons[0][0]), center, radiusKm)
  }

  /** The distance test on a centroid, or the centroid's exception. */
  function TestCentroid(t: Trig, c: Result<Position>, center: LatLon, radiusKm: real): (r: Result<bool>)
    ensures r.Err? <==> c.Err?
    ensures r.Err? ==> r.error == c.error
  {
    match c
    case Err(e) => Err(e)
    case Ok(p) => Ok(CentroidWithin(t, p, center, radiusKm))
  }

  /** The `catch`: every exception becomes `false`. A feature is within the
      radius exactly when its representative ring exists, is non-empty, and
      the ring's centroid is at most `radiusKm` from the centre. */
  function IsFeatureWithinRadius(t: Trig, f: Feature, center: LatLon, radiusKm: real): (r: bool)
    ensures Classify(t, f, center, radiusKm).Err? ==> !r
    ensures r <==>
      && RepresentativeRing(f.geometry).Some?
      && RepresentativeRing(f.geometry).value != []
      && CentroidWithin(t, Centroid(RepresentativeRing(f.geometry).value).value, center, radiusKm)
  {
    match Classify(t, f, center, radiusKm)
    case Ok(b) => b
    case Err(_) => false
  }

  /** A feature without usable geometry is classified `false`, never an
      exception: missing geometry, another geometry type, or an absent or
      empty outer ring (`coordinates: []` among them). */
  lemma MalformedFeatureRejected(t: Trig, f: Feature, center: LatLon, radiusKm: real)
    requires || f.geometry.Missing? || f.geometry.Other?
             || (f.geometry.Polygon? && f.geometry.rings == [])
             || (f.geometry.Polygon? && f.geometry.rings != [] && f.geometry.rings[0] == [])
             || (f.geometry.MultiPolygon? && f.geometry.polygons == [])
             || (f.geometry.MultiPolygon? && f.geometry.polygons != []
                 && (f.geometry.polygons[0] == [] || f.geometry.polygons[0][0] == []))
    ensures !IsFeatureWithinRadius(t, f, center, radiusKm)
  {
  }

  /** A Polygon is tested on the centroid of `coordinates[0]`, with the
      centroid's `[lon, lat]` swapped into the distance's (lat, lon). */
  lemma PolygonUsesOuterRing(t: Trig, rings: seq<Ring>, props: map<string, string>,
                             center: LatLon, radiusKm: real)
    requires rings != [] && rings[0] != []
    ensures var c := Centroid(rings[0]).value;
      IsFeatureWithinRadius(t, Feature(Polygon(rings), props), center, radiusKm)
      <==> DistanceKm(t, center.0, center.1, c.1, c.0) <= radiusKm
  {
  }

  /** A MultiPolygon is tested on the centroid of `coordinates[0][0]` only;
      its other parts and all holes are ignored. */
  lemma MultiPolygonUsesFirstOuterRing(t: Trig, polygons: seq<seq<Ring>>, props: map<string, string>,
                                       center: LatLon, radiusKm: real)
    requires polygons != [] && polygons[0] != [] && polygons[0][0] != []
    ensures var c := Centroid(polygons[0][0]).value;
      IsFeatureWithinRadius(t, Feature(MultiPolygon(polygons), props), center, radiusKm)
      <==> DistanceKm(t, center.0, center.1, c.1, c.0) <= radiusKm
  {
  }

  /** A feature whose centroid lies exactly on the circle is kept. */
  lemma BoundaryIsInclusive(t: Trig, f: Feature, center: LatLon, radiusKm: real)
    requires RepresentativeRing(f.geometry).Some? && RepresentativeRing(f.geometry).value != []
    requires var c := Centroid(RepresentativeRing(f.geometry).value).value;
      DistanceKm(t, center.0, center.1, c.1, c.0) == radiusKm
    ensures IsFeatureWithinRadius(t, f, center, radiusKm)
  {
  }

  /** A polygon whose centroid is the centre itself is within every
      non-negative radius. */
  lemma CentreIsWithinRadius(t: Trig, f: Feature, center: LatLon, radiusKm: real)
    requires MinimalAxioms(t)
    requires radiusKm >= 0.0
    requires RepresentativeRing(f.geometry).Some? && RepresentativeRing(f.geometry).value != []
    requires Centroid(RepresentativeRing(f.geometry).value) == Ok((center.1, center.0))
    ensures IsFeatureWithinRadius(t, f, center, radiusKm)
  {
    DistanceToSelf(t, center.0, center.1);
  }

  // ---------------------------------------------------------------------
  // The filter applied to every loaded forest feature when the user asks for nearby forest

  /** The features that pass the test, in their original order. */
  function FilterWithinRadius(t: Trig, features: seq<Feature>, center: LatLon, radiusKm: real)
    : (r: seq<Feature>)
    ensures |r| <= |features|
    ensures forall f :: f in r ==> f in features && IsFeatureWithinRadius(t, f, center, radiusKm)
    ensures forall i :: 0 <= i < |features| && IsFeatureWithinRadius(t, features[i], center, radiusKm)
                        ==> features[i] in r
  {
    if features == [] then []
    else
      var init := features[..|features| - 1];
      var last := features[|features| - 1];
      var kept := FilterWithinRadius(t, init, center, radiusKm);
      assert forall i :: 0 <= i < |init| ==> init[i] == features[i];
      if IsFeatureWithinRadius(t, last, center, radiusKm) then kept + [last] else kept
  }

  /** `r` picks the entries of `s` at the strictly increasing positions `idx`. */
  ghost predicate OrderedSelection(r: seq<Feature>, s: seq<Feature>, idx: seq<nat>) {
    && |idx| == |r|
    && (forall k :: 0 <= k < |idx| ==> idx[k] < |s| && r[k] == s[idx[k]])
    && (forall k, l :: 0 <= k < l < |idx| ==> idx[k] < idx[l])
  }

  /** The positions of the features that pass the test, in increasing order. */
  ghost function KeptPositions(t: Trig, features: seq<Feature>, center: LatLon, radiusKm: real)
    : (idx: seq<nat>)
    ensures forall k :: 0 <= k < |idx| ==> idx[k] < |features|
  {
    if features == [] then []
    else
      var n := |features|;
      KeptPositions(t, features[..n - 1], center, radiusKm)
        + if IsFeatureWithinRadius(t, features[n - 1], center, radiusKm) then [n - 1] else []
  }

  /** A position is kept exactly when its feature passes the test. */
  lemma {:induction false} KeptPositionsExact(t: Trig, features: seq<Feature>, center: LatLon, radiusKm: real)
    ensures forall i :: 0 <= i < |features| ==>
              (i in KeptPositions(t, features, center, radiusKm) <==>
               IsFeatureWithinRadius(t, features[i], center, radiusKm))
  {
    if features != [] {
      var n := |features|;
      var init := features[..n - 1];
      KeptPositionsExact(t, init, center, radiusKm);
      var idx0 := KeptPositions(t, init, center, radiusKm);
      assert n - 1 !in idx0;
      forall i | 0 <= i < n - 1
        ensures i in KeptPositions(t, features, center, radiusKm)
                <==> IsFeatureWithinRadius(t, features[i], center, radiusKm)
      {
        assert init[i] == features[i];
      }
    }
  }

  /** The filter's output is the input restricted to the kept positions. */
  lemma {:induction false} FilterSelectsKeptPositions(t: Trig, features: seq<Feature>, center: LatLon, radiusKm: real)
    ensures OrderedSelection(FilterWithinRadius(t, features, center, radiusKm), features,
                             KeptPositions(t, features, center, radiusKm))
  {
    if features != [] {
      var n := |features|;
      var init := features[..n - 1];
      FilterSelectsKeptPositions(t, init, center, radiusKm);
      var kept := FilterWithinRadius(t, init, center, radiusKm);
      var idx0 := KeptPositions(t, init, center, radiusKm);
      assert forall k :: 0 <= k < |idx0| ==> kept[k] == features[idx0[k]];
      if IsFeatureWithinRadius(t, features[n - 1], center, radiusKm) {
        assert FilterWithinRadius(t, features, center, radiusKm) == kept + [features[n - 1]];
        assert KeptPositions(t, features, center, radiusKm) == idx0 + [n - 1];
      } else {
        assert FilterWithinRadius(t, features, center, radiusKm) == kept;
        assert KeptPositions(t, features, center, radiusKm) == idx0;
      }
    }
  }

  /** The filter's output is the subsequence of the input at exactly the
      positions whose feature passes the test: order is preserved and
      nothing else is added or dropped. */
  lemma FilterIsOrderedSelection(t: Trig, features: seq<Feature>, center: LatLon, radiusKm: real)
    ensures exists idx ::
              && OrderedSelection(FilterWithinRadius(t, features, center, radiusKm), features, idx)
              && (forall i :: 0 <= i < |features| ==>
                    (i in idx <==> IsFeatureWithinRadius(t, features[i], center, radiusKm)))
  {
    FilterSelectsKeptPositions(t, features, center, radiusKm);
    KeptPositionsExact(t, features, center, radiusKm);
    var idx := KeptPositions(t, features, center, radiusKm);
    assert OrderedSelection(FilterWithinRadius(t, features, center, radiusKm), features, idx);
  }

  /** Filtering a concatenation is concatenating the filtered parts, so a
      collection may be filtered in independent slices. */
  lemma {:induction false} FilterConcat(t: Trig, a: seq<Feature>, b: seq<Feature>, center: LatLon, radiusKm: real)
    ensures FilterWithinRadius(t, a + b, center, radiusKm)
         == FilterWithinRadius(t, a, center, radiusKm) + FilterWithinRadius(t, b, center, radiusKm)
  {
    if b == [] {
      assert a + b == a;
    } else {
      var init := b[..|b| - 1];
      assert (a + b)[..|a + b| - 1] == a + init;
      FilterConcat(t, a, init, center, radiusKm);
    }
  }

  /** A malformed feature anywhere in the collection is simply skipped: the
      rest is filtered as if it were not there. */
  lemma MalformedFeatureSkipped(t: Trig, a: seq<Feature>, bad: Feature, b: seq<Feature>,
                                center: LatLon, radiusKm: real)
    requires RepresentativeRing(bad.geometry).None? || RepresentativeRing(bad.geometry).value == []
    ensures FilterWithinRadius(t, a + [bad] + b, center, radiusKm)
         == FilterWithinRadius(t, a + b, center, radiusKm)
  {
    FilterConcat(t, a + [bad], b, center, radiusKm);
    FilterConcat(t, a, [bad], center, radiusKm);
    FilterConcat(t, a, b, center, radiusKm);
    assert [bad][..0] == [];
    assert FilterWithinRadius(t, [bad], center, radiusKm) == [];
  }
}
