# Nearest-neighbour TSP tours, modelled in Dafny

This project models `main.cpp`, a small C++ program for the travelling
salesman problem. The program:

- reads the cities of a TSPLIB file (its `NODE_COORD_SECTION`);
- builds a tour with the greedy nearest-neighbour heuristic;
- computes the cost of a closed tour;
- reorders cities by a requested list of ids.

The model has one module per part of the program:

- `Cities` (`city.dfy`):
  - the `City` record;
  - the distance, given to every operation as a function value `dist`;
  - `IsEuclidean(dist)`, which says that `dist` is the program's
    `sqrt(dx*dx + dy*dy)` over the reals: the non-negative number whose
    square is `dx*dx + dy*dy`, so non-negativity is part of it. From it the
    model derives that the distance from a city to itself is zero and that
    distance is symmetric.
- `TourCosts` (`tour_cost.dfy`):
  - `calculateTourCost` as a loop, proved against the recursive
    specification functions `PathCost` and `TourCost`;
  - lemmas about those functions: splitting a path, starting a tour at
    another city, reversing a tour, non-negativity.
- `NearestNeighbors` (`nearest_neighbor.dfy`): `nearestNeighbor` as a
  method. Its `visited` flags are an `array<bool>`, and its inner scan is
  the method `FindNearestUnvisited`. The method also returns a ghost
  visiting order of city indices, and its contract proves three things:
  - the order is a permutation of `0..n-1` starting at 0;
  - every step goes to the nearest unvisited city, the lowest index
    winning ties;
  - the returned cost is the cost of the closed tour.

  A further lemma shows that this specification admits exactly one
  visiting order.
- `CityOrdering` (`order_by_cities.dfy`):
  - `std::find_if` as the recursive first-match function `FindCity`;
  - `orderByCities` as a loop, proved against `FoundIds`, a filter of the
    requested ids, mapped through `FirstCity`.
- `TspParser` (`parse.dfy`): the line-selection loop of `parseTSPFile`
  over the file's lines, with its `readingNodes` flag. Its loop follows
  `Scan`, which applies one iteration (`Step`) per line. A separate lemma
  shows that `Scan` reads exactly `NodeLines`, which describes the
  selected lines directly:
  - the lines after the first `NODE_COORD_SECTION`;
  - up to the first `TOUR_SECTION` after it;
  - less any repeated `NODE_COORD_SECTION` lines.

  Turning one line into a city is the function parameter `parseLine`.

## Model

| member | source | states |
|---|---|---|
| Cities.EuclideanNonNegative | main.cpp:51-55 | a distance is never negative; this is part of IsEuclidean, which picks the non-negative root as std::sqrt does |
| Cities.EuclideanSelfZero | main.cpp:51-55 | the distance from a city to itself is 0 |
| Cities.EuclideanSymmetric | main.cpp:51-55 | dist(a, b) == dist(b, a), since dx and dy only change sign |
| Cities.EuclideanRightTriangle | main.cpp:51-55 | cities at offset (3, 4) are at distance 5 |
| Cities.EuclideanUnitStep | main.cpp:51-55 | cities one unit apart along an axis are at distance 1 |
| TourCosts.CalculateTourCost | main.cpp:105-117 | for a non-empty tour, the loop's sum of consecutive edges, plus the edge from the back of the tour to its front, is TourCost of the tour |
| TourCosts.PathCostSnoc | main.cpp:109-110 | each iteration adds one edge: the path cost of t + [c] is that of t plus the edge from t's last city to c |
| TourCosts.PathCostAppend | main.cpp:109-114 | the path cost of a + b is the cost of a, plus the joining edge, plus the cost of b |
| TourCosts.TourCostRotation | main.cpp:105-117 | the cost of a closed tour does not depend on the city it starts from |
| TourCosts.PathCostReverse | main.cpp:109-110 | under a Euclidean distance, a path walked backwards costs the same |
| TourCosts.TourCostReverse | main.cpp:105-117 | under a Euclidean distance, a tour walked in the opposite direction costs the same |
| TourCosts.PathCostNonNegative | main.cpp:109-110 | under a Euclidean distance, a path never costs less than 0 |
| TourCosts.TourCostNonNegative | main.cpp:105-117 | under a Euclidean distance, a tour never costs less than 0 |
| TourCosts.SingleCityTourCost | main.cpp:105-117 | a one-city tour costs 0: the loop adds nothing and the closing edge is a self-distance |
| TourCosts.FourCityTourCost | main.cpp:105-117 | a four-city tour costs its three consecutive edges plus the closing edge |
| TourCosts.UnitSquareTourCost | main.cpp:105-117 | the four corners of the unit square, in order, cost exactly 4 |
| NearestNeighbors.FindNearestUnvisited | main.cpp:76-88 | the scan returns -1 exactly when every city is visited; otherwise it returns an unvisited city and its distance; no unvisited city is closer, and every unvisited city of lower index is strictly farther (ties go to the lowest index) |
| NearestNeighbors.NearestNeighbor | main.cpp:57-103 | on n >= 1 cities it returns n cities; they are visited in an order of indices that is a permutation of 0..n-1 starting at 0, where every step is the greedy step; the first tour city is cities[0]; the returned cost equals TourCost of the returned tour, so it equals what CalculateTourCost computes for that tour |
| NearestNeighbors.UnvisitedIndex | main.cpp:75-92 | while fewer than n cities are visited, some city is unvisited, so the scan never ends at -1 inside the loop |
| NearestNeighbors.IndicesCover | main.cpp:61-97 | distinct indices below n number at most n, and there are n of them exactly when every index below n is among them |
| NearestNeighbors.PermutationVisitsAll | main.cpp:57-103 | every city index occurs in a permutation of 0..n-1, so every city is in the tour |
| NearestNeighbors.VisitingStep | main.cpp:90-96 | moving to the city the scan chose keeps the loop's state: the flags mark exactly the visited indices, these stay distinct and below n, every step is greedy, and the accumulated cost is the cost of the path walked |
| NearestNeighbors.NearestStepsExtend | main.cpp:90-93 | appending the scan's choice to greedy steps yields greedy steps |
| NearestNeighbors.NearestStepUnique | main.cpp:79-88 | from the same visited prefix, two greedy steps choose the same city |
| NearestNeighbors.PrefixesAgree | main.cpp:75-97 | two nearest-neighbour orders agree on every prefix |
| NearestNeighbors.NearestNeighborOrderUnique | main.cpp:57-103 | there is only one nearest-neighbour order of a list of cities, so NearestNeighbor's contract determines its result |
| CityOrdering.FindCity | main.cpp:122-124 | find_if's result is the first city whose id matches; it is the end (None) exactly when no city has the id |
| CityOrdering.FoundIds | main.cpp:119-133 | the ids kept are at most the requested ones; each of them resolves and each was requested |
| CityOrdering.OrderByCities | main.cpp:119-133 | the output has one city per requested id that resolves, in request order; each is the first city carrying that id, and each is an element of cities |
| CityOrdering.FoundIdsAppend | main.cpp:121-131 | the requests are handled one by one: resolving a + b is resolving a, then b |
| CityOrdering.FoundIdsSkipsMissing | main.cpp:126-130 | an id that no city carries is dropped and changes nothing else |
| CityOrdering.FoundIdsKeepsAll | main.cpp:119-133 | when every requested id resolves, every one is kept, in request order |
| CityOrdering.FoundIdsAllPresent | main.cpp:119-133 | every requested id is kept exactly when every requested id resolves |
| CityOrdering.ResolvedInRequestOrder | main.cpp:119-133 | when every id resolves, output i carries requested id i, and the output is as long as the request |
| CityOrdering.FindCityOwnId | main.cpp:122-124 | with distinct ids, a city's own id finds that city |
| CityOrdering.OrderByOwnIds | main.cpp:119-133 | with distinct ids, requesting the cities' own ids in order gives back the cities unchanged |
| CityOrdering.ThreeCityLookups | main.cpp:122-124 | in any three cities with ids 1, 2 and 3, ids 1, 2 and 3 find positions 0, 1 and 2, and id 99 finds nothing |
| CityOrdering.ThreeCityExample | main.cpp:119-133 | for those three cities, requesting [3, 1, 99, 2] drops 99 and yields the cities with ids 3, 1 and 2, in that order |
| TspParser.FirstIndexOf | main.cpp:28-32 | the position of the first line equal to a marker (the end when there is none): no earlier line equals it |
| TspParser.FirstIndexOfAt | main.cpp:28-32 | a first occurrence found by other means is the one FirstIndexOf gives |
| TspParser.WithoutKeeps | main.cpp:29-32 | a line that survives the skipping of repeated markers is not the marker and is a line of the input |
| TspParser.Step | main.cpp:29-43 | one iteration of the loop: once stopped nothing changes; reading, once begun, stays on; the loop stops only at a TOUR_SECTION line while reading; the only record it adds is the current line, while reading, when that line is neither marker |
| TspParser.Scan | main.cpp:28-44 | the whole loop over the lines: it is reading exactly when a NODE_COORD_SECTION line has been seen, stops only while reading, reads at most one record per line, and reads no marker as a record |
| TspParser.ExpectedStep | main.cpp:28-43 | one more line moves the state described by the marker positions exactly as one iteration of the loop (Step) does: the marker turns reading on, a TOUR_SECTION line while reading stops, a line read while reading is a record, anything else is ignored |
| TspParser.ScanMatchesExpected | main.cpp:25-44 | the loop run over all lines (Scan) ends in the state the marker positions describe; in particular, the lines it reads as records are exactly NodeLines |
| TspParser.ScanAfterStop | main.cpp:34-36 | once the loop has stopped at a TOUR_SECTION line, the remaining lines change nothing |
| TspParser.ParseTSPLines | main.cpp:25-44 | the loop returns exactly one city per selected record line (NodeLines of the file), parseLine of that line, in order |
| TspParser.NoMarkerNoRecords | main.cpp:26-44 | a file without a NODE_COORD_SECTION line yields no records |
| TspParser.HeaderIgnored | main.cpp:29-36 | the lines before the first NODE_COORD_SECTION line, TOUR_SECTION lines among them included, do not affect the records |
| TspParser.StopsAtTourSection | main.cpp:34-36 | nothing after the TOUR_SECTION line that ends the section is read |
| TspParser.RecordsAreNotMarkers | main.cpp:29-43 | no record line is NODE_COORD_SECTION or TOUR_SECTION |
| TspParser.TwoRecordExample | main.cpp:25-44 | a header, two records and a tour section: exactly the two records are selected |

## Left out

- File input (`std::ifstream`, `is_open`, `close`) is not modelled. The
  file is given as its sequence of lines, and a file that cannot be opened
  is the empty sequence, which yields no cities.
- The `std::cerr` diagnostics, for a file that fails to open and for an
  id that is not found, are not modelled: they do not affect the results.
- Numeric parsing of a record line (`istringstream >> id >> x >> y`) is
  the function parameter `parseLine`. This includes the zero fields left
  on a malformed line.
- IEEE double arithmetic and `std::sqrt` are not modelled. Coordinates and
  costs are reals, and the distance is a parameter that `IsEuclidean`
  characterises. Rounding, NaN and infinite coordinates are therefore not
  captured.
- NearestNeighbors.FindNearestUnvisited: the `infinity` start value of
  `minDistance` is not modelled. Instead, `nearestCity == -1` marks "no
  candidate yet". The two agree whenever distances are finite, which they
  are over the reals.
- NearestNeighbors.NearestNeighbor: the visiting order of indices is a
  ghost result, because the program returns only the cities.
- NearestNeighbors.NearestNeighbor: the claim that the number of true
  `visited` flags equals the tour length is not stated separately. It
  follows from the invariant "visited[i] exactly when i is in the order"
  together with the order being duplicate-free.
- NearestNeighbors.NearestNeighbor and TourCosts.CalculateTourCost require
  a non-empty input. The program indexes `cities[0]` and calls
  `tour.back()` unconditionally, which is undefined for an empty vector.
- `main` is not modelled: its hard-coded file path, its hard-coded id
  list, its console output and its commented-out code.
- The model makes no comparison with an optimal tour, because the program
  never computes one.
