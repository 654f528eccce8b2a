/** The shoelace centroid of a polygon ring (`calculatePolygonCentroid`). */
module PolygonCentroid {
  import opened Outcomes
  import opened GeoJson

  /** `CONFIG.spatial.polygonAreaThreshold`: below this absolute signed
      area a ring counts as degenerate. */
  const PolygonAreaThreshold: real := 1e-10

  function Abs(x: real): real { if x < 0.0 then -x else x }

  /** The three quantities the shoelace loop accumulates. */
  datatype Weight = Area | MomentX | MomentY

  /** The contribution of the edge from `p` to `q`: the cross product
      `xp*yq - xq*yp`, alone or weighted by `xp+xq` or `yp+yq`. */
  function EdgeTerm(w: Weight, p: Position, q: Position): real {
    var cross := p.0 * q.1 - q.0 * p.1;
    match w
    case Area => cross
    case MomentX => (p.0 + q.0) * cross
    case MomentY => (p.1 + q.1) * cross
  }

  /** The sum of the first `k` edge terms of the ring taken cyclically:
      edge `i` runs from position `i` to position `(i + 1) mod n`. */
  function EdgeSum(w: Weight, ring: Ring, k: nat): real
    requires k <= |ring|
  {
    if k == 0 then 0.0
    else EdgeSum(w, ring, k - 1) + EdgeTerm(w, ring[k - 1], ring[k % |ring|])
  }

  /** Half the cyclic cross-product sum: positive for a counter-clockwise ring. */
  function SignedArea(ring: Ring): real {
    EdgeSum(Area, ring, |ring|) * 0.5
  }

  datatype Axis = X | Y

  function Coordinate(p: Position, axis: Axis): real {
    match axis
    case X => p.0
    case Y => p.1
  }

  /** The sum of one coordinate over the ring, folded left to right as
      `reduce` does. */
  function CoordinateSum(ring: Ring, axis: Axis): real {
    if ring == [] then 0.0
    else CoordinateSum(ring[..|ring| - 1], axis) + Coordinate(ring[|ring| - 1], axis)
  }

  /** The centroid `[x, y]` of a ring: an error for an empty ring, the
      arithmetic mean of the positions when the absolute signed area is
      below the threshold, and otherwise the shoelace formula, dividing by
      the signed (not the absolute) area. */
  function Centroid(ring: Ring): (r: Result<Position>)
    ensures r.Err? <==> ring == []
    ensures r.Err? ==> r.error == InvalidCoordinates
  {
    if ring == [] then Err(InvalidCoordinates)
    else
      var area := SignedArea(ring);
      var n := |ring| as real;
      if Abs(area) < PolygonAreaThreshold then
        Ok((CoordinateSum(ring, X) / n, CoordinateSum(ring, Y) / n))
      else
        Ok((EdgeSum(MomentX, ring, |ring|) / (6.0 * area),
            EdgeSum(MomentY, ring, |ring|) / (6.0 * area)))
  }

  /** The loop of the source: accumulate `area`, `cx` and `cy` over the
      cyclic edges, halve `area`, then either fall back to the mean or
      rescale `cx` and `cy` by `6 * area`. */
  method CalculatePolygonCentroid(coordinates: Ring) returns (r: Result<Position>)
    ensures r == Centroid(coordinates)
  {
    if |coordinates| == 0 {
      return Err(InvalidCoordinates);
    }
    var area, cx, cy := 0.0, 0.0, 0.0;
    var n := |coordinates|;
    for i := 0 to n
      invariant area == EdgeSum(Area, coordinates, i)
      invariant cx == EdgeSum(MomentX, coordinates, i)
      invariant cy == EdgeSum(MomentY, coordinates, i)
    {
      var j := (i + 1) % n;
      var xi, yi := coordinates[i].0, coordinates[i].1;
      var xj, yj := coordinates[j].0, coordinates[j].1;
      var cross := xi * yj - xj * yi;
      area := area + cross;
      cx := cx + (xi + xj) * cross;
      cy := cy + (yi + yj) * cross;
    }
    area := area * 0.5;
    if Abs(area) < PolygonAreaThreshold {
      var avgLon := CoordinateSum(coordinates, X) / n as real;
      var avgLat := CoordinateSum(coordinates, Y) / n as real;
      return Ok((avgLon, avgLat));
    }
    cx := cx / (6.0 * area);
    cy := cy / (6.0 * area);
    return Ok((cx, cy));
  }

  // ---------------------------------------------------------------------
  // Degenerate rings

  /** Every edge of a ring whose positions all coincide has zero cross product. */
  lemma {:induction false} CoincidentEdgeSum(w: Weight, ring: Ring, p: Position, k: nat)
    requires k <= |ring|
    requires forall i :: 0 <= i < |ring| ==> ring[i] == p
    ensures EdgeSum(w, ring, k) == 0.0
  {
    if k > 0 {
      CoincidentEdgeSum(w, ring, p, k - 1);
    }
  }

  lemma {:induction false} CoincidentCoordinateSum(ring: Ring, p: Position, axis: Axis)
    requires forall i :: 0 <= i < |ring| ==> ring[i] == p
    ensures CoordinateSum(ring, axis) == |ring| as real * Coordinate(p, axis)
  {
    if ring != [] {
      CoincidentCoordinateSum(ring[..|ring| - 1], p, axis);
    }
  }

  /** A ring of one repeated position has zero area and its centroid is
      that position: the mean fallback, not a division by zero. */
  lemma CoincidentRingCentroid(ring: Ring, p: Position)
    requires ring != []
    requires forall i :: 0 <= i < |ring| ==> ring[i] == p
    ensures SignedArea(ring) == 0.0
    ensures Centroid(ring) == Ok(p)
  {
    CoincidentEdgeSum(Area, ring, p, |ring|);
    CoincidentMean(ring, p, X);
    CoincidentMean(ring, p, Y);
    assert Abs(SignedArea(ring)) < PolygonAreaThreshold;
  }

  lemma CoincidentMean(ring: Ring, p: Position, axis: Axis)
    requires ring != []
    requires forall i :: 0 <= i < |ring| ==> ring[i] == p
    ensures CoordinateSum(ring, axis) / |ring| as real == Coordinate(p, axis)
  {
    CoincidentCoordinateSum(ring, p, axis);
    MeanOfScaled(|ring| as real, Coordinate(p, axis));
  }

  lemma MeanOfScaled(n: real, x: real)
    requires n > 0.0
    ensures n * x / n == x
  {
  }

  /** The degenerate triangle `[(5,5),(5,5),(5,5)]` has centroid `(5,5)`. */
  lemma DegenerateTriangleCentroid()
    ensures Centroid([(5.0, 5.0), (5.0, 5.0), (5.0, 5.0)]) == Ok((5.0, 5.0))
  {
    CoincidentRingCentroid([(5.0, 5.0), (5.0, 5.0), (5.0, 5.0)], (5.0, 5.0));
  }

  /** Rings of one or two positions are not errors: their area is zero and
      the centroid is the position itself or the midpoint of the two. */
  lemma ShortRingCentroid(ring: Ring)
    requires 1 <= |ring| <= 2
    ensures SignedArea(ring) == 0.0
    ensures |ring| == 1 ==> Centroid(ring) == Ok(ring[0])
    ensures |ring| == 2 ==>
      Centroid(ring) == Ok(((ring[0].0 + ring[1].0) / 2.0, (ring[0].1 + ring[1].1) / 2.0))
  {
    if |ring| == 1 {
      assert EdgeSum(Area, ring, 1) == EdgeTerm(Area, ring[0], ring[0]);
      assert ring[..0] == [];
      assert CoordinateSum(ring, X) == ring[0].0;
      assert CoordinateSum(ring, Y) == ring[0].1;
    } else {
      assert EdgeSum(Area, ring, 1) == EdgeTerm(Area, ring[0], ring[1]);
      assert EdgeSum(Area, ring, 2) == EdgeSum(Area, ring, 1) + EdgeTerm(Area, ring[1], ring[0]);
      EdgeTermAntisymmetric(Area, ring[0], ring[1]);
      assert ring[..1][..0] == [];
      assert ring[..1] == [ring[0]];
      assert CoordinateSum(ring[..1], X) == ring[0].0;
      assert CoordinateSum(ring[..1], Y) == ring[0].1;
      assert CoordinateSum(ring, X) == ring[0].0 + ring[1].0;
      assert CoordinateSum(ring, Y) == ring[0].1 + ring[1].1;
    }
    assert Abs(SignedArea(ring)) < PolygonAreaThreshold;
  }

  // ---------------------------------------------------------------------
  // A worked example

  /** The counter-clockwise unit square has area 1 and centroid `(0.5, 0.5)`. */
  lemma UnitSquareCentroid()
    ensures SignedArea([(0.0, 0.0), (1.0, 0.0), (1.0, 1.0), (0.0, 1.0)]) == 1.0
    ensures Centroid([(0.0, 0.0), (1.0, 0.0), (1.0, 1.0), (0.0, 1.0)]) == Ok((0.5, 0.5))
  {
    var sq: Ring := [(0.0, 0.0), (1.0, 0.0), (1.0, 1.0), (0.0, 1.0)];
    assert EdgeSum(Area, sq, 4) == 2.0 by {
      assert EdgeSum(Area, sq, 2) == 1.0;
    }
    assert EdgeSum(MomentX, sq, 4) == 3.0 by {
      assert EdgeSum(MomentX, sq, 2) == 2.0;
    }
    assert EdgeSum(MomentY, sq, 4) == 3.0 by {
      assert EdgeSum(MomentY, sq, 2) == 1.0;
    }
  }

  // ---------------------------------------------------------------------
  // Orientation

  /** Reversal of a sequence (the same ring traversed the other way). */
  function Reverse<T>(s: seq<T>): (r: seq<T>)
    ensures |r| == |s|
    ensures forall i :: 0 <= i < |s| ==> r[i] == s[|s| - 1 - i]
  {
    if s == [] then [] else Reverse(s[1..]) + [s[0]]
  }

  /** Swapping an edge's endpoints negates its term. */
  lemma EdgeTermAntisymmetric(w: Weight, p: Position, q: Position)
    ensures EdgeTerm(w, q, p) == -EdgeTerm(w, p, q)
  {
    var cross := p.0 * q.1 - q.0 * p.1;
    assert q.0 * p.1 - p.0 * q.1 == -cross;
  }

  /** The sum of the first `k` edge terms of the OPEN path `s[0], s[1], ...`. */
  function PathSum(w: Weight, s: seq<Position>, k: nat): real
    requires k < |s|
  {
    if k == 0 then 0.0 else PathSum(w, s, k - 1) + EdgeTerm(w, s[k - 1], s[k])
  }

  lemma {:induction false} EdgeSumIsPathSum(w: Weight, ring: Ring, k: nat)
    requires k < |ring|
    ensures EdgeSum(w, ring, k) == PathSum(w, ring, k)
  {
    if k > 0 {
      EdgeSumIsPathSum(w, ring, k - 1);
      SmallModulus(k, |ring|);
    }
  }

  lemma SmallModulus(k: int, n: int)
    requires 0 <= k < n
    ensures k % n == k
  {
  }

  /** The cyclic sum is the open path sum plus the closing edge. */
  lemma EdgeSumSplit(w: Weight, ring: Ring)
    requires ring != []
    ensures EdgeSum(w, ring, |ring|)
         == PathSum(w, ring, |ring| - 1) + EdgeTerm(w, ring[|ring| - 1], ring[0])
  {
    EdgeSumIsPathSum(w, ring, |ring| - 1);
  }

  lemma {:induction false} PathSumCons(w: Weight, a: Position, t: seq<Position>, k: nat)
    requires 1 <= k <= |t|
    ensures PathSum(w, [a] + t, k) == EdgeTerm(w, a, t[0]) + PathSum(w, t, k - 1)
  {
    if k > 1 {
      PathSumCons(w, a, t, k - 1);
    }
  }

  lemma {:induction false} PathSumSnoc(w: Weight, s: seq<Position>, b: Position, k: nat)
    requires k < |s|
    ensures PathSum(w, s + [b], k) == PathSum(w, s, k)
  {
    if k > 0 {
      PathSumSnoc(w, s, b, k - 1);
    }
  }

  /** Walking an open path backwards negates its sum. */
  lemma {:induction false} PathSumReverse(w: Weight, s: seq<Position>)
    requires s != []
    ensures PathSum(w, Reverse(s), |s| - 1) == -PathSum(w, s, |s| - 1)
  {
    var a, t := s[0], s[1..];
    assert s == [a] + t;
    if t != [] {
      var rt := Reverse(t);
      assert Reverse(s) == rt + [a];
      PathSumReverse(w, t);
      PathSumSnoc(w, rt, a, |t| - 1);
      assert (rt + [a])[|t| - 1] == t[0];
      EdgeTermAntisymmetric(w, a, t[0]);
      PathSumCons(w, a, t, |t|);
    }
  }

  /** Reversing a ring negates each of the three cyclic sums. */
  lemma EdgeSumReverse(w: Weight, ring: Ring)
    requires ring != []
    ensures EdgeSum(w, Reverse(ring), |ring|) == -EdgeSum(w, ring, |ring|)
  {
    var n := |ring|;
    EdgeSumSplit(w, ring);
    EdgeSumSplit(w, Reverse(ring));
    PathSumReverse(w, ring);
    EdgeTermAntisymmetric(w, ring[n - 1], ring[0]);
  }

  lemma {:induction false} CoordinateSumCons(a: Position, t: Ring, axis: Axis)
    ensures CoordinateSum([a] + t, axis) == Coordinate(a, axis) + CoordinateSum(t, axis)
  {
    if t != [] {
      var u := [a] + t;
      assert u[..|u| - 1] == [a] + t[..|t| - 1];
      CoordinateSumCons(a, t[..|t| - 1], axis);
    }
  }

  lemma {:induction false} CoordinateSumReverse(ring: Ring, axis: Axis)
    ensures CoordinateSum(Reverse(ring), axis) == CoordinateSum(ring, axis)
  {
    if ring != [] {
      var a, t := ring[0], ring[1..];
      assert ring == [a] + t;
      var u := Reverse(t) + [a];
      assert Reverse(ring) == u;
      assert u[..|u| - 1] == Reverse(t);
      CoordinateSumReverse(t, axis);
      CoordinateSumCons(a, t, axis);
    }
  }

  lemma NegatedQuotient(m: real, area: real)
    requires area != 0.0
    ensures -m / (6.0 * -area) == m / (6.0 * area)
  {
  }

  /** Reversing the winding negates the signed area together with both
      moments, so the centroid does not change: only the threshold test
      takes the absolute value, and the division keeps the sign. */
  lemma CentroidReverse(ring: Ring)
    ensures SignedArea(Reverse(ring)) == -SignedArea(ring)
    ensures Centroid(Reverse(ring)) == Centroid(ring)
  {
    if ring != [] {
      EdgeSumReverse(Area, ring);
      EdgeSumReverse(MomentX, ring);
      EdgeSumReverse(MomentY, ring);
      CoordinateSumReverse(ring, X);
      CoordinateSumReverse(ring, Y);
      var area := SignedArea(ring);
      if Abs(area) >= PolygonAreaThreshold {
        NegatedQuotient(EdgeSum(MomentX, ring, |ring|), area);
        NegatedQuotient(EdgeSum(MomentY, ring, |ring|), area);
      }
    }
  }

  // ---------------------------------------------------------------------
  // Closed rings

  /** Repeating the first position at the end (a closed ring in the sense
      of section 3.1.6 of RFC 7946) adds a zero-length edge and leaves all
      three shoelace sums unchanged. */
  lemma ClosingEdgeSum(w: Weight, ring: Ring)
    requires ring != []
    ensures EdgeSum(w, ring + [ring[0]], |ring| + 1) == EdgeSum(w, ring, |ring|)
  {
    var n := |ring|;
    var closed := ring + [ring[0]];
    assert closed[n - 1] == ring[n - 1] && closed[n] == ring[0];
    EdgeSumSplit(w, closed);
    EdgeSumSplit(w, ring);
    var p := ring[0];
    assert EdgeTerm(w, p, p) == 0.0 by {
      EdgeTermAntisymmetric(w, p, p);
    }
    assert PathSum(w, closed, n) == PathSum(w, closed, n - 1) + EdgeTerm(w, ring[n - 1], ring[0]);
    PathSumSnoc(w, ring, ring[0], n - 1);
  }

  /** So a non-degenerate ring has the same centroid whether or not it is
      written closed. */
  lemma ClosedRingCentroid(ring: Ring)
    requires ring != []
    requires Abs(SignedArea(ring)) >= PolygonAreaThreshold
    ensures SignedArea(ring + [ring[0]]) == SignedArea(ring)
    ensures Centroid(ring + [ring[0]]) == Centroid(ring)
  {
    ClosingEdgeSum(Area, ring);
    ClosingEdgeSum(MomentX, ring);
    ClosingEdgeSum(MomentY, ring);
  }
}
