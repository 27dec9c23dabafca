/** The cost of a cyclic tour: the sum of the distances between consecutive
    cities plus the closing edge from the last city back to the first.
 */
module TourCosts {
  import opened Cities

  /** Sum of dist(t[i], t[i+1]) for 0 <= i < |t| - 1, the open path along `t`. */
  function PathCost(dist: Distance, t: seq<City>): real
    decreases |t|
  {
    if |t| <= 1 then 0.0
    else PathCost(dist, t[..|t| - 1]) + dist(t[|t| - 2], t[|t| - 1])
  }

  /** The cost of `t` read as a closed tour. It is defined only for a
      non-empty tour, whose front and back cities the closing edge joins. */
  function TourCost(dist: Distance, t: seq<City>): real
    requires |t| >= 1
  {
    PathCost(dist, t) + dist(t[|t| - 1], t[0])
  }

  /** calculateTourCost: sums the consecutive edges in a loop, then adds the
      edge from the back of the tour to its front. */
  method CalculateTourCost(dist: Distance, tour: seq<City>) returns (totalCost: real)
    requires |tour| >= 1
    ensures totalCost == TourCost(dist, tour)
  {
    totalCost := 0.0;
    var numCities := |tour|;
    for i := 0 to numCities - 1
      invariant totalCost == PathCost(dist, tour[..i + 1])
    {
      assert tour[..i + 2][..i + 1] == tour[..i + 1];
      totalCost := totalCost + dist(tour[i], tour[i + 1]);
    }
    assert tour[..numCities] == tour;
    totalCost := totalCost + dist(tour[numCities - 1], tour[0]);
  }

  /** Extending a path by one city adds the edge to it. */
  lemma {:induction false} PathCostSnoc(dist: Distance, t: seq<City>, c: City)
    requires |t| >= 1
    ensures PathCost(dist, t + [c]) == PathCost(dist, t) + dist(t[|t| - 1], c)
  {
    var u := t + [c];
    assert u[..|u| - 1] == t;
    assert u[|u| - 2] == t[|t| - 1] && u[|u| - 1] == c;
  }

  /** Splitting a path: the cost of `a + b` is the cost of `a`, the edge
      joining the two parts, and the cost of `b`. */
  lemma {:induction false} PathCostAppend(dist: Distance, a: seq<City>, b: seq<City>)
    requires |a| >= 1 && |b| >= 1
    ensures PathCost(dist, a + b) == PathCost(dist, a) + dist(a[|a| - 1], b[0]) + PathCost(dist, b)
    decreases |b|
  {
    var ab := a + b;
    if |b| == 1 {
      assert ab[..|ab| - 1] == a;
    } else {
      var b' := b[..|b| - 1];
      assert ab[..|ab| - 1] == a + b';
      PathCostAppend(dist, a, b');
    }
  }

  /** A tour of a single city costs zero under the Euclidean distance. */
  lemma {:induction false} SingleCityTourCost(dist: Distance, c: City)
    requires IsEuclidean(dist)
    ensures TourCost(dist, [c]) == 0.0
  {
    EuclideanSelfZero(dist, c);
  }

  /** The cost of a tour does not depend on the city it starts from. */
  lemma {:induction false} TourCostRotation(dist: Distance, t: seq<City>, k: nat)
    requires k < |t|
    ensures TourCost(dist, t[k..] + t[..k]) == TourCost(dist, t)
  {
    if k > 0 {
      var a, b := t[..k], t[k..];
      assert t == a + b;
      PathCostAppend(dist, a, b);
      PathCostAppend(dist, b, a);
    } else {
      assert t[k..] + t[..k] == t;
    }
  }

  function Reverse(t: seq<City>): (r: seq<City>)
    ensures |r| == |t|
    ensures forall i :: 0 <= i < |t| ==> r[i] == t[|t| - 1 - i]
  {
    if t == [] then [] else [t[|t| - 1]] + Reverse(t[..|t| - 1])
  }

  /** Walking a path backwards costs the same when the distance is symmetric. */
  lemma {:induction false} PathCostReverse(dist: Distance, t: seq<City>)
    requires IsEuclidean(dist)
    ensures PathCost(dist, Reverse(t)) == PathCost(dist, t)
    decreases |t|
  {
    if |t| > 1 {
      var init := t[..|t| - 1];
      PathCostReverse(dist, init);
      assert Reverse(t) == [t[|t| - 1]] + Reverse(init);
      PathCostAppend(dist, [t[|t| - 1]], Reverse(init));
      assert PathCost(dist, [t[|t| - 1]]) == 0.0;
      EuclideanSymmetric(dist, t[|t| - 1], t[|t| - 2]);
    }
  }

  /** Walking a tour in the opposite direction costs the same under the
      Euclidean distance. */
  lemma {:induction false} TourCostReverse(dist: Distance, t: seq<City>)
    requires IsEuclidean(dist)
    requires |t| >= 1
    ensures TourCost(dist, Reverse(t)) == TourCost(dist, t)
  {
    PathCostReverse(dist, t);
    EuclideanSymmetric(dist, t[0], t[|t| - 1]);
  }

  /** A tour never has negative cost under the Euclidean distance. */
  lemma {:induction false} PathCostNonNegative(dist: Distance, t: seq<City>)
    requires IsEuclidean(dist)
    ensures PathCost(dist, t) >= 0.0
    decreases |t|
  {
    if |t| > 1 {
      PathCostNonNegative(dist, t[..|t| - 1]);
      EuclideanNonNegative(dist, t[|t| - 2], t[|t| - 1]);
    }
  }

  lemma {:induction false} TourCostNonNegative(dist: Distance, t: seq<City>)
    requires IsEuclidean(dist)
    requires |t| >= 1
    ensures TourCost(dist, t) >= 0.0
  {
    PathCostNonNegative(dist, t);
    EuclideanNonNegative(dist, t[|t| - 1], t[0]);
  }

  /** A four-city tour costs its four edges, the closing one included. */
  lemma {:induction false} FourCityTourCost(dist: Distance, a: City, b: City, c: City, d: City)
    ensures TourCost(dist, [a, b, c, d]) == dist(a, b) + dist(b, c) + dist(c, d) + dist(d, a)
  {
    assert [a, b][..1] == [a];
    assert PathCost(dist, [a, b]) == dist(a, b);
    assert [a, b, c][..2] == [a, b];
    assert PathCost(dist, [a, b, c]) == dist(a, b) + dist(b, c);
    assert [a, b, c, d][..3] == [a, b, c];
    assert PathCost(dist, [a, b, c, d]) == dist(a, b) + dist(b, c) + dist(c, d);
  }

  /** The four corners of the unit square, visited in order, cost 4. */
  lemma {:induction false} UnitSquareTourCost(dist: Distance)
    requires IsEuclidean(dist)
    ensures TourCost(dist, [City(1, 0.0, 0.0), City(2, 1.0, 0.0), City(3, 1.0, 1.0), City(4, 0.0, 1.0)]) == 4.0
  {
    var a, b, c, d := City(1, 0.0, 0.0), City(2, 1.0, 0.0), City(3, 1.0, 1.0), City(4, 0.0, 1.0);
    EuclideanUnitStep(dist, a, b);
    EuclideanUnitStep(dist, b, c);
    EuclideanUnitStep(dist, c, d);
    EuclideanUnitStep(dist, d, a);
    FourCityTourCost(dist, a, b, c, d);
  }
}
