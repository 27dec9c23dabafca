/** Greedy nearest-neighbour tour construction.

    Starting from the first city, the construction repeatedly moves to the
    closest city not yet visited; a linear scan with a strict comparison
    means that among equally close cities the one with the lowest index
    wins. The visiting order is described here by the indices of the cities
    it visits (`order`), which the program itself does not return.
 */
module NearestNeighbors {
  import opened Cities
  import opened TourCosts

  ghost predicate Distinct(order: seq<nat>)
  {
    forall i, j :: 0 <= i < j < |order| ==> order[i] != order[j]
  }

  ghost predicate InRange(order: seq<nat>, n: nat)
  {
    forall i :: 0 <= i < |order| ==> order[i] < n
  }

  /** `order` lists every index below `n` exactly once. */
  ghost predicate IsPermutation(order: seq<nat>, n: nat)
  {
    |order| == n && Distinct(order) && InRange(order, n)
  }

  /** Step `s` of `order` is the greedy step: having visited `order[..s]`,
      in that order, it goes to `order[s]`, a city not yet visited; no
      unvisited city is closer to the last visited one, and every unvisited
      city of lower index is strictly farther. */
  ghost predicate IsNearestStep(dist: Distance, cities: seq<City>, order: seq<nat>, s: nat)
  {
    && 1 <= s < |order|
    && order[s - 1] < |cities|
    && order[s] < |cities|
    && order[s] !in order[..s]
    && var from, next := cities[order[s - 1]], order[s];
       forall j :: 0 <= j < |cities| && j !in order[..s] ==>
         && dist(from, cities[next]) <= dist(from, cities[j])
         && (j < next ==> dist(from, cities[next]) < dist(from, cities[j]))
  }

  /** `order` is the visiting order the nearest-neighbour heuristic builds:
      a permutation of the city indices that starts at 0 and takes the
      greedy step every time. */
  ghost predicate IsNearestNeighborOrder(dist: Distance, cities: seq<City>, order: seq<nat>)
  {
    && IsPermutation(order, |cities|)
    && |order| >= 1
    && order[0] == 0
    && forall s :: 1 <= s < |order| ==> IsNearestStep(dist, cities, order, s)
  }

  function Elements(order: seq<nat>): set<nat>
  {
    set i | i in order
  }

  lemma {:induction false} DistinctCardinality(order: seq<nat>)
    requires Distinct(order)
    ensures |Elements(order)| == |order|
    decreases |order|
  {
    if order != [] {
      var init := order[..|order| - 1];
      var last := order[|order| - 1];
      assert Elements(order) == Elements(init) + {last};
      assert last !in Elements(init);
      DistinctCardinality(init);
    }
  }

  /** The set of indices below `n`. */
  function IndexRange(n: nat): (r: set<nat>)
    ensures forall i: nat :: i in r <==> i < n
    ensures |r| == n
  {
    if n == 0 then {} else IndexRange(n - 1) + {n - 1}
  }

  /** Pigeonhole: distinct indices below `n` number at most `n`, and they
      cover every index below `n` exactly when there are `n` of them. */
  lemma {:induction false} IndicesCover(order: seq<nat>, n: nat)
    requires Distinct(order) && InRange(order, n)
    ensures |order| <= n
    ensures |order| == n <==> forall j :: 0 <= j < n ==> j in order
  {
    var e, r := Elements(order), IndexRange(n);
    DistinctCardinality(order);
    assert e <= r;
    assert |r| == |e| + |r - e| by {
      assert r == e + (r - e);
    }
    if |order| == n {
      assert r - e == {};
      forall j | 0 <= j < n ensures j in order {
        assert j in r;
      }
    }
    if forall j :: 0 <= j < n ==> j in order {
      assert r - e == {} by {
        forall j | j in r ensures j in e {
          assert j in order;
        }
      }
    }
  }

  /** While fewer than `n` distinct indices have been visited, some index
      below `n` has not. */
  lemma {:induction false} UnvisitedIndex(order: seq<nat>, n: nat) returns (j: nat)
    requires Distinct(order) && InRange(order, n)
    requires |order| < n
    ensures j < n && j !in order
  {
    IndicesCover(order, n);
    j :| 0 <= j < n && j !in order;
  }

  /** A permutation of the indices visits every city. */
  lemma {:induction false} PermutationVisitsAll(order: seq<nat>, n: nat, k: nat)
    requires IsPermutation(order, n)
    requires k < n
    ensures k in order
  {
    IndicesCover(order, n);
  }

  /** The greedy step is determined: two orders that agree on the cities
      visited so far take the same next step. */
  lemma {:induction false} NearestStepUnique(dist: Distance, cities: seq<City>, o1: seq<nat>, o2: seq<nat>, s: nat)
    requires IsNearestStep(dist, cities, o1, s)
    requires IsNearestStep(dist, cities, o2, s)
    requires o1[..s] == o2[..s]
    ensures o1[s] == o2[s]
  {
    assert o1[s - 1] == o1[..s][s - 1] == o2[s - 1];
  }

  lemma {:induction false} PrefixesAgree(dist: Distance, cities: seq<City>, o1: seq<nat>, o2: seq<nat>, s: nat)
    requires IsNearestNeighborOrder(dist, cities, o1)
    requires IsNearestNeighborOrder(dist, cities, o2)
    requires 1 <= s <= |cities|
    ensures o1[..s] == o2[..s]
    decreases s
  {
    if s == 1 {
      assert o1[..1] == [0] == o2[..1];
    } else {
      PrefixesAgree(dist, cities, o1, o2, s - 1);
      NearestStepUnique(dist, cities, o1, o2, s - 1);
      assert o1[..s] == o1[..s - 1] + [o1[s - 1]];
      assert o2[..s] == o2[..s - 1] + [o2[s - 1]];
    }
  }

  /** The nearest-neighbour order of a list of cities is unique, so the
      postcondition of NearestNeighbor pins its result down completely. */
  lemma {:induction false} NearestNeighborOrderUnique(dist: Distance, cities: seq<City>, o1: seq<nat>, o2: seq<nat>)
    requires IsNearestNeighborOrder(dist, cities, o1)
    requires IsNearestNeighborOrder(dist, cities, o2)
    ensures o1 == o2
  {
    PrefixesAgree(dist, cities, o1, o2, |cities|);
    assert o1 == o1[..|cities|] && o2 == o2[..|cities|];
  }

  /** Appending a city keeps the earlier greedy steps greedy. */
  lemma {:induction false} NearestStepExtend(dist: Distance, cities: seq<City>, order: seq<nat>, next: nat, s: nat)
    requires IsNearestStep(dist, cities, order, s)
    ensures IsNearestStep(dist, cities, order + [next], s)
  {
    assert (order + [next])[..s] == order[..s];
  }

  /** Appending a greedy step to greedy steps. */
  lemma {:induction false} NearestStepsExtend(dist: Distance, cities: seq<City>, order: seq<nat>, next: nat)
    requires forall s :: 1 <= s < |order| ==> IsNearestStep(dist, cities, order, s)
    requires |order| >= 1 && order[|order| - 1] < |cities| && next < |cities| && next !in order
    requires forall j :: 0 <= j < |cities| && j !in order ==>
      && dist(cities[order[|order| - 1]], cities[next]) <= dist(cities[order[|order| - 1]], cities[j])
      && (j < next ==> dist(cities[order[|order| - 1]], cities[next]) < dist(cities[order[|order| - 1]], cities[j]))
    ensures forall s :: 1 <= s < |order| + 1 ==> IsNearestStep(dist, cities, order + [next], s)
  {
    var order' := order + [next];
    forall s | 1 <= s < |order'|
      ensures IsNearestStep(dist, cities, order', s)
    {
      if s < |order| {
        NearestStepExtend(dist, cities, order, next, s);
      } else {
        assert order'[..s] == order;
      }
    }
  }

  /** The scan of one greedy step: among the cities not yet visited, the
      first in index order of those nearest to `currentCity`, with its
      distance; -1 when every city has been visited. */
  method FindNearestUnvisited(dist: Distance, cities: seq<City>, visited: array<bool>, currentCity: nat)
    returns (nearestCity: int, minDistance: real)
    requires visited.Length == |cities| && currentCity < |cities|
    ensures nearestCity == -1 <==> forall j :: 0 <= j < |cities| ==> visited[j]
    ensures nearestCity != -1 ==>
      && 0 <= nearestCity < |cities|
      && !visited[nearestCity]
      && minDistance == dist(cities[currentCity], cities[nearestCity])
    ensures nearestCity != -1 ==>
      forall j :: 0 <= j < |cities| && !visited[j] ==>
        && minDistance <= dist(cities[currentCity], cities[j])
        && (j < nearestCity ==> minDistance < dist(cities[currentCity], cities[j]))
  {
    // nearestCity == -1 plays the part of minDistance == +infinity:
    // the first unvisited city scanned always replaces it.
    minDistance := 0.0;
    nearestCity := -1;
    for i := 0 to |cities|
      invariant nearestCity == -1 <==> forall j :: 0 <= j < i ==> visited[j]
      invariant nearestCity != -1 ==>
        && 0 <= nearestCity < i
        && !visited[nearestCity]
        && minDistance == dist(cities[currentCity], cities[nearestCity])
      invariant nearestCity != -1 ==>
        forall j :: 0 <= j < i && !visited[j] ==>
          && minDistance <= dist(cities[currentCity], cities[j])
          && (j < nearestCity ==> minDistance < dist(cities[currentCity], cities[j]))
    {
      if !visited[i] {
        var distance := dist(cities[currentCity], cities[i]);
        if nearestCity == -1 || distance < minDistance {
          minDistance := distance;
          nearestCity := i;
        }
      }
    }
  }

  /** The state of nearestNeighbor's outer loop: the cities visited so
      far, in `order`, are flagged in `visited`, form `tour`, were reached
      by greedy steps from city 0, and `totalCost` is the cost of the path
      walked so far. */
  ghost predicate Visiting(dist: Distance, cities: seq<City>, visited: seq<bool>,
                           tour: seq<City>, order: seq<nat>, totalCost: real)
  {
    && |visited| == |cities|
    && 1 <= |order| <= |cities|
    && |tour| == |order|
    && order[0] == 0
    && Distinct(order) && InRange(order, |cities|)
    && (forall i :: 0 <= i < |cities| ==> (visited[i] <==> i in order))
    && (forall s :: 0 <= s < |tour| ==> tour[s] == cities[order[s]])
    && (forall s :: 1 <= s < |order| ==> IsNearestStep(dist, cities, order, s))
    && totalCost == PathCost(dist, tour)
  }

  /** Moving to the nearest unvisited city keeps the loop's state. */
  lemma {:induction false} VisitingStep(dist: Distance, cities: seq<City>, visited: seq<bool>,
                                        tour: seq<City>, order: seq<nat>, totalCost: real, next: nat)
    requires Visiting(dist, cities, visited, tour, order, totalCost)
    requires next < |cities| && !visited[next]
    requires forall j :: 0 <= j < |cities| && !visited[j] ==>
      && dist(cities[order[|order| - 1]], cities[next]) <= dist(cities[order[|order| - 1]], cities[j])
      && (j < next ==> dist(cities[order[|order| - 1]], cities[next]) < dist(cities[order[|order| - 1]], cities[j]))
    ensures Visiting(dist, cities, visited[next := true], tour + [cities[next]], order + [next],
                     totalCost + dist(cities[order[|order| - 1]], cities[next]))
  {
    assert next !in order;
    forall j | 0 <= j < |cities| && j !in order
      ensures !visited[j]
    {
    }
    NearestStepsExtend(dist, cities, order, next);
    assert tour[|tour| - 1] == cities[order[|order| - 1]];
    PathCostSnoc(dist, tour, cities[next]);
    var order' := order + [next];
    forall i | 0 <= i < |cities|
      ensures visited[next := true][i] <==> i in order'
    {
      assert i in order' <==> i in order || i == next;
    }
    var tour' := tour + [cities[next]];
    assert |order'| <= |cities| by {
      IndicesCover(order, |cities|);
    }
    assert Distinct(order');
    assert InRange(order', |cities|);
    assert forall s :: 0 <= s < |tour'| ==> tour'[s] == cities[order'[s]];
  }

  /** nearestNeighbor: builds the tour greedily from city 0 and returns it
      with its total cost, the closing edge included. */
  method NearestNeighbor(dist: Distance, cities: seq<City>) returns (tour: seq<City>, totalCost: real, ghost order: seq<nat>)
    requires |cities| >= 1
    ensures IsNearestNeighborOrder(dist, cities, order)
    ensures |tour| == |cities| == |order|
    ensures forall s :: 0 <= s < |tour| ==> tour[s] == cities[order[s]]
    ensures tour[0] == cities[0]
    ensures totalCost == TourCost(dist, tour)
  {
    var numCities := |cities|;
    var visited := new bool[numCities](_ => false);

    var currentCity := 0;
    visited[currentCity] := true;
    tour := [cities[currentCity]];
    order := [currentCity];
    totalCost := 0.0;

    while |tour| < numCities
      invariant Visiting(dist, cities, visited[..], tour, order, totalCost)
      invariant currentCity == order[|order| - 1]
      decreases numCities - |tour|
    {
      var nearestCity, minDistance := FindNearestUnvisited(dist, cities, visited, currentCity);
      ghost var unvisited := UnvisitedIndex(order, numCities);
      assert !visited[unvisited];
      VisitingStep(dist, cities, visited[..], tour, order, totalCost, nearestCity);

      currentCity := nearestCity;
      visited[currentCity] := true;
      tour := tour + [cities[currentCity]];
      order := order + [currentCity];
      totalCost := totalCost + minDistance;
    }
    totalCost := totalCost + dist(tour[|tour| - 1], tour[0]);
  }
}
