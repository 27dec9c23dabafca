/** Cities and the distance between them.

    A city is an immutable record of an identifier and planar coordinates;
    coordinates are modelled as reals rather than IEEE doubles. The
    Euclidean distance of the program is passed to every operation as a
    function value `dist`; `IsEuclidean(dist)` characterises the square
    root of the program exactly: the non-negative real whose square is
    dx*dx + dy*dy.
 */
module Cities {

  datatype City = City(id: int, x: real, y: real)

  /** The distance function an operation is given. */
  type Distance = (City, City) -> real

  function SquaredDistance(a: City, b: City): real
  {
    (a.x - b.x) * (a.x - b.x) + (a.y - b.y) * (a.y - b.y)
  }

  /** `dist` computes sqrt(dx*dx + dy*dy) for every pair of cities. */
  ghost predicate IsEuclidean(dist: Distance)
  {
    forall a: City, b: City ::
      dist(a, b) >= 0.0 && dist(a, b) * dist(a, b) == SquaredDistance(a, b)
  }

  /** Squaring is strictly increasing on the non-negative reals. */
  lemma {:induction false} SquareStrictlyIncreasing(a: real, b: real)
    requires 0.0 <= a < b
    ensures a * a < b * b
  {
    var d := b - a;
    assert b * b == a * a + 2.0 * a * d + d * d;
    assert a * d >= 0.0;
    assert d * d > 0.0;
  }

  /** A non-negative square root is unique. */
  lemma {:induction false} SquareRootUnique(r: real, s: real)
    requires r >= 0.0 && s >= 0.0
    requires r * r == s * s
    ensures r == s
  {
    if r < s {
      SquareStrictlyIncreasing(r, s);
    } else if s < r {
      SquareStrictlyIncreasing(s, r);
    }
  }

  /** A Euclidean distance is never negative: IsEuclidean picks the
      non-negative square root. */
  lemma {:induction false} EuclideanNonNegative(dist: Distance, a: City, b: City)
    requires IsEuclidean(dist)
    ensures dist(a, b) >= 0.0
  {
  }

  /** The distance from a city to itself is zero. */
  lemma {:induction false} EuclideanSelfZero(dist: Distance, a: City)
    requires IsEuclidean(dist)
    ensures dist(a, a) == 0.0
  {
    assert SquaredDistance(a, a) == 0.0;
    SquareRootUnique(dist(a, a), 0.0);
  }

  /** A Euclidean distance is symmetric. */
  lemma {:induction false} EuclideanSymmetric(dist: Distance, a: City, b: City)
    requires IsEuclidean(dist)
    ensures dist(a, b) == dist(b, a)
  {
    assert SquaredDistance(a, b) == SquaredDistance(b, a);
    SquareRootUnique(dist(a, b), dist(b, a));
  }

  /** A city at offset (3, 4) from another is at distance 5. */
  lemma {:induction false} EuclideanRightTriangle(dist: Distance, a: City, b: City)
    requires IsEuclidean(dist)
    requires b.x == a.x + 3.0 && b.y == a.y + 4.0
    ensures dist(a, b) == 5.0
  {
    assert SquaredDistance(a, b) == 25.0;
    SquareRootUnique(dist(a, b), 5.0);
  }

  /** Two cities one unit apart along an axis are at distance 1. */
  lemma {:induction false} EuclideanUnitStep(dist: Distance, a: City, b: City)
    requires IsEuclidean(dist)
    requires (a.x == b.x && (b.y == a.y + 1.0 || a.y == b.y + 1.0))
          || (a.y == b.y && (b.x == a.x + 1.0 || a.x == b.x + 1.0))
    ensures dist(a, b) == 1.0
  {
    assert SquaredDistance(a, b) == 1.0;
    SquareRootUnique(dist(a, b), 1.0);
  }
}
