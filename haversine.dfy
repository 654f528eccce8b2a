/** Great-circle distance by the haversine formula (`regnUtAvstandKm`). */
module Haversine {

  /** Mean Earth radius in kilometres. */
  const EarthRadiusKm: real := 6371.0

  /** `Math.PI`. */
  const Pi: real := 3.141592653589793

  /** The `Math` functions the formula calls. They are parameters: the model
      says nothing about their values beyond what MinimalAxioms states. */
  datatype Trig = Trig(
    sin: real -> real,
    cos: real -> real,
    sqrt: real -> real,
    atan2: (real, real) -> real)

  /** The only facts about the trigonometric functions the proofs use:
      sine vanishes at zero and its square is even, the square roots of 0
      and 1, and the angle of the point (1, 0). */
  ghost predicate MinimalAxioms(t: Trig) {
    && t.sin(0.0) == 0.0
    && (forall x: real :: Square(t.sin(Negate(x))) == Square(t.sin(x)))
    && t.sqrt(0.0) == 0.0
    && t.sqrt(1.0) == 1.0
    && t.atan2(0.0, 1.0) == 0.0
  }

  function Square(x: real): real { x * x }

  /** `-x` as a function, so that the evenness fact about sine has a
      term the quantifier can be triggered on. */
  function Negate(x: real): real { -x }

  /** Degrees to radians, multiplying before dividing as the source does. */
  function Radians(degrees: real): real { degrees * Pi / 180.0 }

  /** The haversine of the central angle between two points given as
      (latitude, longitude) in degrees. */
  function HalfChordSquare(t: Trig, lat1: real, lon1: real, lat2: real, lon2: real): real {
    var dLat := Radians(lat2 - lat1);
    var dLon := Radians(lon2 - lon1);
    Square(t.sin(dLat / 2.0))
      + t.cos(Radians(lat1)) * t.cos(Radians(lat2)) * Square(t.sin(dLon / 2.0))
  }

  /** The distance in kilometres: `R * 2 * atan2(sqrt(a), sqrt(1 - a))`. */
  function DistanceKm(t: Trig, lat1: real, lon1: real, lat2: real, lon2: real): real {
    var a := HalfChordSquare(t, lat1, lon1, lat2, lon2);
    EarthRadiusKm * 2.0 * t.atan2(t.sqrt(a), t.sqrt(1.0 - a))
  }

  /** Half a negated difference is the negated half. */
  lemma HalfDifferenceNegates(a: real, b: real)
    ensures Radians(b - a) / 2.0 == -(Radians(a - b) / 2.0)
  {
  }

  /** The squared sine of half of an angle difference does not depend on
      which point comes first. */
  lemma HalfSineSquareSymmetric(t: Trig, a: real, b: real)
    requires MinimalAxioms(t)
    ensures Square(t.sin(Radians(b - a) / 2.0)) == Square(t.sin(Radians(a - b) / 2.0))
  {
    var h := Radians(a - b) / 2.0;
    HalfDifferenceNegates(a, b);
    assert Negate(h) == Radians(b - a) / 2.0;
    assert Square(t.sin(Negate(h))) == Square(t.sin(h));
  }

  /** A point is at distance zero from itself. */
  lemma DistanceToSelf(t: Trig, lat: real, lon: real)
    requires MinimalAxioms(t)
    ensures HalfChordSquare(t, lat, lon, lat, lon) == 0.0
    ensures DistanceKm(t, lat, lon, lat, lon) == 0.0
  {
    assert Radians(lat - lat) / 2.0 == 0.0;
    assert Radians(lon - lon) / 2.0 == 0.0;
  }

  /** The distance is symmetric in its two points. */
  lemma DistanceSymmetric(t: Trig, lat1: real, lon1: real, lat2: real, lon2: real)
    requires MinimalAxioms(t)
    ensures HalfChordSquare(t, lat1, lon1, lat2, lon2) == HalfChordSquare(t, lat2, lon2, lat1, lon1)
    ensures DistanceKm(t, lat1, lon1, lat2, lon2) == DistanceKm(t, lat2, lon2, lat1, lon1)
  {
    HalfSineSquareSymmetric(t, lat1, lat2);
    HalfSineSquareSymmetric(t, lon1, lon2);
    var c1, c2 := t.cos(Radians(lat1)), t.cos(Radians(lat2));
    assert c1 * c2 == c2 * c1;
  }
}
