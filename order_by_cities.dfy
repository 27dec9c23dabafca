/** Reordering cities by a requested list of ids.

    Every requested id is resolved to the first city that carries it; ids
    that no city carries are skipped (the program reports them on its
    diagnostic stream, which is not modelled).
 */
module CityOrdering {
  import opened Cities

  datatype Option<T> = None | Some(value: T)

  /** std::find_if over `cities` for the first city whose id is `id`. */
  function FindCity(cities: seq<City>, id: int): (r: Option<nat>)
    ensures r.Some? ==>
      && r.value < |cities|
      && cities[r.value].id == id
      && forall j :: 0 <= j < r.value ==> cities[j].id != id
    ensures r.None? <==> forall j :: 0 <= j < |cities| ==> cities[j].id != id
    decreases |cities|
  {
    if cities == [] then None
    else if cities[0].id == id then Some(0)
    else match FindCity(cities[1..], id)
      case None => None
      case Some(k) => Some(k + 1)
  }

  /** The city `id` resolves to. */
  function FirstCity(cities: seq<City>, id: int): City
    requires FindCity(cities, id).Some?
  {
    cities[FindCity(cities, id).value]
  }

  /** The requested ids that resolve, in request order (repeats kept). */
  function FoundIds(cities: seq<City>, ids: seq<int>): (r: seq<int>)
    ensures |r| <= |ids|
    ensures forall i :: 0 <= i < |r| ==> FindCity(cities, r[i]).Some?
    ensures forall i :: 0 <= i < |r| ==> r[i] in ids
    decreases |ids|
  {
    if ids == [] then []
    else
      var id := ids[|ids| - 1];
      FoundIds(cities, ids[..|ids| - 1]) + if FindCity(cities, id).Some? then [id] else []
  }

  /** orderByCities: for each requested id in turn, appends the first city
      carrying it, and skips the id when no city does. */
  method OrderByCities(cities: seq<City>, order: seq<int>) returns (orderedCities: seq<City>)
    ensures |orderedCities| == |FoundIds(cities, order)|
    ensures forall i :: 0 <= i < |orderedCities| ==>
      orderedCities[i] == FirstCity(cities, FoundIds(cities, order)[i])
    ensures forall i :: 0 <= i < |orderedCities| ==> orderedCities[i] in cities
  {
    orderedCities := [];
    for k := 0 to |order|
      invariant |orderedCities| == |FoundIds(cities, order[..k])|
      invariant forall i :: 0 <= i < |orderedCities| ==>
        orderedCities[i] == FirstCity(cities, FoundIds(cities, order[..k])[i])
    {
      var cityId := order[k];
      assert order[..k + 1][..k] == order[..k];
      var it := FindCity(cities, cityId);
      if it.Some? {
        orderedCities := orderedCities + [cities[it.value]];
      }
    }
    assert order[..|order|] == order;
  }

  /** Resolving a concatenation of requests resolves each part. */
  lemma {:induction false} FoundIdsAppend(cities: seq<City>, a: seq<int>, b: seq<int>)
    ensures FoundIds(cities, a + b) == FoundIds(cities, a) + FoundIds(cities, b)
    decreases |b|
  {
    if b == [] {
      assert a + b == a;
    } else {
      var b' := b[..|b| - 1];
      assert (a + b)[..|a + b| - 1] == a + b';
      FoundIdsAppend(cities, a, b');
    }
  }

  /** An id that no city carries is dropped and nothing else changes. */
  lemma {:induction false} FoundIdsSkipsMissing(cities: seq<City>, a: seq<int>, id: int, b: seq<int>)
    requires forall j :: 0 <= j < |cities| ==> cities[j].id != id
    ensures FoundIds(cities, a + [id] + b) == FoundIds(cities, a) + FoundIds(cities, b)
  {
    assert FoundIds(cities, [id]) == [] by {
      assert [id][..0] == [];
    }
    calc {
      FoundIds(cities, a + [id] + b);
      { FoundIdsAppend(cities, a + [id], b); }
      FoundIds(cities, a + [id]) + FoundIds(cities, b);
      { FoundIdsAppend(cities, a, [id]); }
      FoundIds(cities, a) + [] + FoundIds(cities, b);
    }
    assert FoundIds(cities, a) + [] == FoundIds(cities, a);
  }

  /** When every requested id resolves, every one is kept. */
  lemma {:induction false} FoundIdsKeepsAll(cities: seq<City>, ids: seq<int>)
    requires forall i :: 0 <= i < |ids| ==> FindCity(cities, ids[i]).Some?
    ensures FoundIds(cities, ids) == ids
    decreases |ids|
  {
    if ids != [] {
      var init, last := ids[..|ids| - 1], ids[|ids| - 1];
      assert forall i :: 0 <= i < |init| ==> init[i] == ids[i];
      FoundIdsKeepsAll(cities, init);
      assert FindCity(cities, last).Some?;
      assert ids == init + [last];
    }
  }

  /** Every requested id is kept exactly when every requested id resolves. */
  lemma {:induction false} FoundIdsAllPresent(cities: seq<City>, ids: seq<int>)
    ensures FoundIds(cities, ids) == ids <==> forall i :: 0 <= i < |ids| ==> FindCity(cities, ids[i]).Some?
  {
    if forall i :: 0 <= i < |ids| ==> FindCity(cities, ids[i]).Some? {
      FoundIdsKeepsAll(cities, ids);
    }
  }

  /** When every requested id resolves, the result lists one city per
      request, carrying the requested id, in request order. */
  lemma {:induction false} ResolvedInRequestOrder(cities: seq<City>, ids: seq<int>)
    requires forall i :: 0 <= i < |ids| ==> FindCity(cities, ids[i]).Some?
    ensures |FoundIds(cities, ids)| == |ids|
    ensures forall i :: 0 <= i < |ids| ==> FirstCity(cities, FoundIds(cities, ids)[i]).id == ids[i]
  {
    FoundIdsAllPresent(cities, ids);
  }

  ghost predicate DistinctIds(cities: seq<City>)
  {
    forall i, j :: 0 <= i < j < |cities| ==> cities[i].id != cities[j].id
  }

  function Ids(cities: seq<City>): seq<int>
  {
    seq(|cities|, i requires 0 <= i < |cities| => cities[i].id)
  }

  /** With distinct ids, a city's id resolves to that city. */
  lemma {:induction false} FindCityOwnId(cities: seq<City>, i: nat)
    requires DistinctIds(cities)
    requires i < |cities|
    ensures FindCity(cities, cities[i].id) == Some(i)
  {
  }

  /** With distinct ids, reordering cities by their own ids gives them back
      unchanged. */
  lemma {:induction false} OrderByOwnIds(cities: seq<City>)
    requires DistinctIds(cities)
    ensures FoundIds(cities, Ids(cities)) == Ids(cities)
    ensures forall i :: 0 <= i < |cities| ==> FirstCity(cities, Ids(cities)[i]) == cities[i]
  {
    forall i | 0 <= i < |cities|
      ensures FindCity(cities, Ids(cities)[i]) == Some(i)
    {
      FindCityOwnId(cities, i);
    }
    FoundIdsAllPresent(cities, Ids(cities));
  }

  lemma {:induction false} ThreeCityLookups(a: City, b: City, c: City)
    requires a.id == 1 && b.id == 2 && c.id == 3
    ensures FindCity([a, b, c], 1) == Some(0)
    ensures FindCity([a, b, c], 2) == Some(1)
    ensures FindCity([a, b, c], 3) == Some(2)
    ensures FindCity([a, b, c], 99).None?
  {
    assert [a, b, c][1..] == [b, c] && [b, c][1..] == [c] && [c][1..] == [];
    assert FindCity([c], 3) == Some(0) && FindCity([b, c], 3) == Some(1);
    assert FindCity([c], 99).None? && FindCity([b, c], 99).None?;
  }

  /** Three cities with ids 1, 2 and 3 requested as [3, 1, 99, 2]: id 99 is
      dropped and the others are resolved in request order. */
  lemma {:induction false} ThreeCityExample(a: City, b: City, c: City)
    requires a.id == 1 && b.id == 2 && c.id == 3
    ensures FoundIds([a, b, c], [3, 1, 99, 2]) == [3, 1, 2]
    ensures FindCity([a, b, c], 3).Some? && FirstCity([a, b, c], 3) == c
    ensures FindCity([a, b, c], 1).Some? && FirstCity([a, b, c], 1) == a
    ensures FindCity([a, b, c], 2).Some? && FirstCity([a, b, c], 2) == b
  {
    var cities := [a, b, c];
    ThreeCityLookups(a, b, c);
    assert FoundIds(cities, [3]) == [3] by {
      assert [3][..0] == [];
    }
    assert FoundIds(cities, [3, 1]) == [3, 1] by {
      assert [3, 1][..1] == [3];
    }
    assert FoundIds(cities, [3, 1, 99]) == [3, 1] by {
      assert [3, 1, 99][..2] == [3, 1];
    }
    assert [3, 1, 99, 2][..3] == [3, 1, 99];
  }
}
