/**
 * The `/optimize-route` handler of app/routes.py: the location-count guard, the
 * call into the distance lookup and solver (an outcome given as a parameter), and
 * the reordering of the request's locations by the solver's tour.
 */
module Routes {
  import opened Wrappers
  import opened Places
  import TspSolver

  /** What the distance lookup and the solver produce for the request's locations. */
  datatype SolveOutcome =
    | Solved(tour: seq<int>, totalDistance: int)  // `optimal_tour, total_distance`
    | Raised(message: string)                     // an exception, by its `str(e)`

  /** The JSON reply and its HTTP status. */
  datatype Response =
    | Optimized(optimizedRoute: seq<Location>, totalDistance: int, tourIndices: seq<int>)  // 200
    | Failure(status: nat, error: string)

  const MinLocations: nat := 3
  const MaxLocations: nat := 10
  const CountError := "Please provide between 3 and 10 locations"
  /** The message of the `IndexError` Python raises for `locations[i]` out of range. */
  const IndexError := "list index out of range"

  /** Python list indexing accepts -|xs| <= i < |xs|, negative indices counting from the end. */
  predicate ValidIndex<T>(xs: seq<T>, i: int) {
    -|xs| <= i < |xs|
  }

  function PyIndex<T>(xs: seq<T>, i: int): (x: T)
    requires ValidIndex(xs, i)
  {
    if i < 0 then xs[|xs| + i] else xs[i]
  }

  /**
   * `[locations[i] for i in tour]`: None when some index is out of range (the
   * comprehension raises), otherwise the locations picked in tour order.
   */
  function Reorder(locations: seq<Location>, tour: seq<int>): (r: Option<seq<Location>>)
    ensures r.Some? <==> forall k :: 0 <= k < |tour| ==> ValidIndex(locations, tour[k])
    ensures r.Some? ==>
      |r.value| == |tour| &&
      forall k :: 0 <= k < |tour| ==> ValidIndex(locations, tour[k]) && r.value[k] == PyIndex(locations, tour[k])
  {
    if tour == [] then Some([])
    else if !ValidIndex(locations, tour[0]) then None
    else
      match Reorder(locations, tour[1..])
      case None => None
      case Some(rest) => Some([PyIndex(locations, tour[0])] + rest)
  }

  /**
   * `optimize_route`: `requested` is the body's `locations` value (None when the
   * key is absent, which the handler reads as an empty list); `outcome` is what
   * solving those locations yields.
   */
  function OptimizeRoute(requested: Option<seq<Location>>, outcome: SolveOutcome): (r: Response)
    ensures var locations := requested.GetOr([]);
      !(MinLocations <= |locations| <= MaxLocations) ==> r == Failure(400, CountError)
    ensures var locations := requested.GetOr([]);
      MinLocations <= |locations| <= MaxLocations && outcome.Raised? ==> r == Failure(500, outcome.message)
    ensures var locations := requested.GetOr([]);
      MinLocations <= |locations| <= MaxLocations && outcome.Solved? ==>
        match Reorder(locations, outcome.tour)
        case None => r == Failure(500, IndexError)
        case Some(route) => r == Optimized(route, outcome.totalDistance, outcome.tour)
  {
    var locations := requested.GetOr([]);
    if |locations| < MinLocations || |locations| > MaxLocations then
      Failure(400, CountError)
    else
      match outcome
      case Raised(message) => Failure(500, message)
      case Solved(tour, totalDistance) =>
        match Reorder(locations, tour)
        case None => Failure(500, IndexError)
        case Some(route) => Optimized(route, totalDistance, tour)
  }

  /** A request without the `locations` key is rejected with 400, whatever the solver would do. */
  lemma MissingLocationsRejected(outcome: SolveOutcome)
    ensures OptimizeRoute(None, outcome) == Failure(400, CountError)
  {
  }

  /** A success carries one location per tour index, each the location that index names. */
  lemma OptimizedRouteFollowsTour(requested: Option<seq<Location>>, outcome: SolveOutcome)
    requires OptimizeRoute(requested, outcome).Optimized?
    ensures var locations := requested.GetOr([]);
      var r := OptimizeRoute(requested, outcome);
      outcome.Solved? && r.tourIndices == outcome.tour &&
      3 <= |locations| <= 10 && |r.optimizedRoute| == |outcome.tour| &&
      forall k :: 0 <= k < |outcome.tour| ==>
        ValidIndex(locations, outcome.tour[k]) && r.optimizedRoute[k] == PyIndex(locations, outcome.tour[k])
  {
  }

  /** A closed tour (first index equals last) gives a route that starts and ends at the same location. */
  lemma ClosedTourClosedRoute(requested: Option<seq<Location>>, outcome: SolveOutcome)
    requires OptimizeRoute(requested, outcome).Optimized?
    requires |outcome.tour| > 0 && outcome.tour[0] == outcome.tour[|outcome.tour| - 1]
    ensures var route := OptimizeRoute(requested, outcome).optimizedRoute;
      |route| > 0 && route[0] == route[|route| - 1]
  {
  }

  /**
   * With the tour that `reconstruct_tour` builds from an n-by-n solution matrix for
   * the n requested locations, the handler succeeds and the route is closed at the
   * first requested location.
   */
  lemma ReconstructedTourOptimizes(locations: seq<Location>, m: seq<seq<int>>, total: int)
    requires 3 <= |locations| <= 10 && TspSolver.IsSquare(m) && |m| == |locations|
    ensures var tour := TspSolver.Reconstruct(m);
      var r := OptimizeRoute(Some(locations), Solved(tour, total));
      r.Optimized? && |r.optimizedRoute| == |tour| <= |locations| + 1 &&
      r.optimizedRoute[0] == locations[0] == r.optimizedRoute[|tour| - 1]
  {
    var tour := TspSolver.Reconstruct(m);
    TspSolver.ReconstructedTour(m);
    assert forall k :: 0 <= k < |tour| ==> ValidIndex(locations, tour[k]);
  }
}
