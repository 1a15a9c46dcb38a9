# Walking-tour optimiser: verified model of its core

The application lets a user pick places on a map; the page enables optimisation
from 3 places on. The server accepts 3 to 10 places and finds the shortest closed
tour through them by driving distance: it solves a travelling-salesman problem and
reorders the places along the tour. The browser then draws the tour as walking
segments and lists the stops in order.

This Dafny project models the logic around the solver and the map, in six modules:

- `TspSolver` (`tsp_solver.dfy`) covers `reconstruct_tour` and the `path_dist` loop
  in `app/tsp_solver.py`. Both are imperative methods, each proved against a
  recursive specification function:
  - `ReconstructTour` against `Reconstruct`, which is defined through `Walk`, `Step`
    and `FirstCandidate`;
  - `PathDist` against `SelectedCost`.

  Lemmas then state what the tour guarantees: it starts at city 0, is closed, has at
  most n + 1 entries, stays in range, has no repeats and follows matrix edges. For a
  matrix that encodes one Hamiltonian cycle, they show the tour is exactly that cycle
  and `path_dist` is its length.
- `Routes` (`routes.dfy`) covers the `/optimize-route` handler of `app/routes.py` as
  a pure function: the 3..10 guard, the solve outcome (a value or an exception) and
  the reordering `[locations[i] for i in optimal_tour]`, with Python's negative
  indices.
- `PathBuilder` (`path_builder.dfy`) covers the drawing-free parts of
  `app/static/js/script.js`:
  - closing the route;
  - pairing stop i with stop (i + 1) mod len;
  - the straight-line fallback for a failed segment;
  - stitching the segments into one path;
  - the text `displayRoute` shows.
- `Page` (`page.dfy`) covers the page's global state as the class `Session`: the
  aligned `locations`/`markers` arrays, the drawn polyline, the optimize button's
  `disabled` flag and the result text. Its handlers keep the registry invariant
  `Valid()`: one marker per location, same name and coordinates, labelled 1..N, on
  the map.
- `Places` and `Wrappers` hold the shared records and an `Option` type.

Nondeterminism and I/O are parameters:
- what the solver returns (`Routes.SolveOutcome`);
- what each directions request answered (`PathBuilder.DirectionsResult`, already
  resolved, one per segment);
- which places a search produced (`Page.Place`).

Two behaviours of the code are worth stating up front:
- The server checks the number of locations: fewer than 3 or more than 10 gets
  status 400 (`app/routes.py:18-19`).
- `removeLocation` does not check its index. For an index past the end, the splice
  of `locations` does nothing and `markers[index].setMap` throws, so the state is
  left as it was and the call throws. `Session.RemoveLocation` reports this as `threw`.

## Model

| member | source | states |
|---|---|---|
| TspSolver.FirstCandidate | app/tsp_solver.py:56-60 | the column the inner scan stops at: the least j at or after the start with `m[cur][j] == 1` and j not yet in the tour, or none when no column qualifies |
| TspSolver.Step | app/tsp_solver.py:56-60 | one pass keeps the first city and leaves a last city that is a valid index |
| TspSolver.Walk | app/tsp_solver.py:52-60 | after any number of passes the open tour is non-empty, starts at city 0 and ends at a valid index |
| TspSolver.StepKeepsPath | app/tsp_solver.py:56-60 | a pass either leaves the tour unchanged or extends it by one city; the tour stays a path (from 0, in range, no repeats, every step an edge) |
| TspSolver.WalkIsPath | app/tsp_solver.py:52-60 | after p passes the open tour is such a path with at most p + 1 entries |
| TspSolver.Reconstruct | app/tsp_solver.py:50-64 | the returned tour has at least two entries, starts with 0 and ends with its first entry |
| TspSolver.ReconstructedTour | app/tsp_solver.py:50-64 | for n >= 1 the tour starts and ends at 0, has at most n + 1 entries, all in 0..n-1, no city twice before the closing entry, and every consecutive pair before it is a 1 of the matrix; for n = 0 it is [0, 0] |
| TspSolver.ScanFound | app/tsp_solver.py:57-60 | a scan that meets the first candidate appends exactly that city |
| TspSolver.ScanExhausted | app/tsp_solver.py:56-57 | a scan that meets no candidate leaves the tour unchanged |
| TspSolver.ReconstructIsClosedWalk | app/tsp_solver.py:55-63 | with n >= 1 cities the tour is the walk after n - 1 passes followed by 0 |
| TspSolver.ScanPass | app/tsp_solver.py:56-60 | the inner `for j` loop with `break` computes exactly one pass and tracks `current` as the tour's last city |
| TspSolver.ReconstructTour | app/tsp_solver.py:50-64 | the nested loops return exactly `Reconstruct(m)`, for every square matrix, n = 0 and n = 1 included |
| TspSolver.CycleScan | app/tsp_solver.py:57-59 | on a Hamiltonian-cycle matrix the scan from the cycle's p-th city picks the next city of the cycle |
| TspSolver.WalkFollowsCycle | app/tsp_solver.py:55-60 | on a Hamiltonian-cycle matrix the walk after p passes is the first p + 1 cities of the cycle |
| TspSolver.CycleRecovered | app/tsp_solver.py:55-63 | on a matrix encoding one Hamiltonian cycle c from city 0, the tour is c followed by 0: n + 1 entries, every city once before the closing 0 |
| TspSolver.PathDist | app/tsp_solver.py:42-46 | the double loop returns the sum of `distances[i][j]` over exactly the cells where the tour matrix is 1 |
| TspSolver.RowsCostRemove | app/tsp_solver.py:42-46 | the cost of a list of rows splits into one row's cost plus the cost of the others |
| TspSolver.RemoveLargest | app/tsp_solver.py:42-46 | removing the largest city from an order of 0..r-1 leaves an order of 0..r-2 |
| TspSolver.RowsCostPermutation | app/tsp_solver.py:42-46 | summing the rows in any order that lists each row once gives the matrix's selected cost |
| TspSolver.CycleRowCost | app/tsp_solver.py:44-46 | a row of a cycle matrix contributes exactly the distance to the next city of the cycle |
| TspSolver.CycleSuffixCost | app/tsp_solver.py:42-46 | the rows of a suffix of the cycle cost as much as the matching suffix of the closed tour |
| TspSolver.PathDistIsTourCost | app/tsp_solver.py:39-46 | on a Hamiltonian-cycle matrix, `path_dist` equals the length of the tour `reconstruct_tour` returns, summed edge by edge |
| Routes.Reorder | app/routes.py:32 | the comprehension succeeds exactly when every tour index is a valid Python index (negative ones included); the result then has one location per tour entry, `locations[tour[k]]` at position k |
| Routes.OptimizeRoute | app/routes.py:13-41 | fewer than 3 or more than 10 locations give 400 with the fixed message; a solver exception gives 500 with its message; an index error in the reordering gives 500; otherwise the reordered route, the total and the tour |
| Routes.MissingLocationsRejected | app/routes.py:15-19 | a body without `locations` is rejected with 400, whatever the solver would do |
| Routes.OptimizedRouteFollowsTour | app/routes.py:18-38 | a success implies 3..10 locations, a solved tour, one location per tour index, each the location that index names, and the tour echoed back |
| Routes.ClosedTourClosedRoute | app/routes.py:31-32 | a closed index tour gives a route whose first and last locations are the same |
| Routes.ReconstructedTourOptimizes | app/routes.py:27-38 | with the tour `reconstruct_tour` builds for the n requested locations the handler succeeds, the route has at most n + 1 stops and starts and ends at the first requested location |
| PathBuilder.CloseRoute | app/static/js/script.js:117-127 | fewer than two stops are rejected; otherwise the route is kept as a prefix, a copy of the first stop is appended exactly when the first and last coordinates differ, and the result starts and ends at the same coordinates |
| PathBuilder.CloseRouteIdempotent | app/static/js/script.js:122-127 | closing an already closed route changes nothing |
| PathBuilder.SegmentsUpTo | app/static/js/script.js:131-142 | segment i is the walking path when directions succeeded and the straight line from stop i to stop (i + 1) mod len when they failed |
| PathBuilder.ResolveSegments | app/static/js/script.js:131-142 | the request loop yields one segment per stop, the walking path or the two-point fallback per index, and equals `SegmentPaths` |
| PathBuilder.ClosedRouteSegments | app/static/js/script.js:125-134 | on a route that had to be closed, segments 0..n-1 pair the original stops cyclically and the added segment starts and ends at the first stop |
| PathBuilder.FinalSegmentDegenerate | app/static/js/script.js:126-139 | the last segment of every closed route joins two stops at the same coordinates; if its directions failed it is two copies of the first stop's point |
| PathBuilder.AssemblePath | app/static/js/script.js:148-156 | the `forEach` accumulation equals `CompletePath`: every segment but the last without its last point, then the last segment whole |
| PathBuilder.BuildPath | app/static/js/script.js:116-156 | for two or more stops, the closed route is `CloseRoute(route)` and the path is the stitched segments of that closed route |
| PathBuilder.GlueSegment | app/static/js/script.js:149-155 | appending a segment that starts where the previous one ends adds exactly its points after the shared junction |
| PathBuilder.GlueLast | app/static/js/script.js:149-155 | when the last segment starts where the one before it ends, the complete path is the path of the earlier segments plus the last segment's points after the junction |
| PathBuilder.EmbeddedStep | app/static/js/script.js:149-155 | gluing one more chained segment keeps every earlier segment's place in the path |
| PathBuilder.ChainedMeet | app/static/js/script.js:149-155 | in chained segments every segment is non-empty and ends at the point where the next one starts |
| PathBuilder.SegmentsEmbedded | app/static/js/script.js:148-156 | for chained segments, each segment appears whole in the complete path, right after the trimmed earlier segments: no point is lost |
| PathBuilder.Names | app/static/js/script.js:209 | one name per stop, in route order |
| PathBuilder.JoinAppend | app/static/js/script.js:210 | joining a concatenation puts exactly one separator between the two joined halves |
| PathBuilder.JoinShape | app/static/js/script.js:210 | a join is as long as its parts plus one separator per gap, begins with the first part and ends with the last |
| PathBuilder.RouteTextShape | app/static/js/script.js:201-211 | the text of a non-empty route has the length of its names plus one " --> " per gap, begins with the first stop's name and ends with the last stop's name; a one-stop route's text is its name, and a longer route's text is the first name, " --> ", then the text of the remaining stops |
| Page.Selected | app/static/js/script.js:24-25 | a batch adds at most one location per place |
| Page.SelectedAppend | app/static/js/script.js:24-33 | one more place adds its location exactly when it has coordinates |
| Page.AlignedRemove | app/static/js/script.js:65-68 | splicing the same index out of both arrays keeps them aligned and the removed marker is no longer among them |
| Page.AlignedAppend | app/static/js/script.js:33-41 | pushing a new location and its fresh marker keeps the arrays aligned |
| Page.Marker.constructor | app/static/js/script.js:35-40 | a new marker has the place's title and position, the given label, and is on the map |
| Page.Polyline.constructor | app/static/js/script.js:161-167 | a new polyline follows the given path and is on the map |
| Page.Session.constructor | app/static/js/script.js:2-4 | on page load nothing is selected, drawn or displayed, and the registry invariant holds |
| Page.Session.UpdateLocationList | app/static/js/script.js:60-62 | the optimize button is disabled exactly when there are fewer than 3 locations |
| Page.Session.SelectPlace | app/static/js/script.js:24-43 | a place with coordinates appends its location and a fresh marker labelled with the new length, and updates the gate; a place without coordinates changes nothing; the invariant is kept |
| Page.Session.PlacesChanged | app/static/js/script.js:20-45 | a search adds the locations of exactly the places with coordinates, in order, one fresh marker each, the earlier markers untouched; no places change nothing; the invariant is kept |
| Page.Session.RemoveLocation | app/static/js/script.js:65-76 | a valid index removes that location and its marker from both arrays, keeping the others in order; the marker leaves the map with its label unchanged, the rest are relabelled k + 1 and the gate is updated; a past-the-end index throws and changes nothing |
| Page.Session.ClearMarkers | app/static/js/script.js:86-89 | every marker leaves the map, keeps its label, and the array is emptied |
| Page.Session.ClearPaths | app/static/js/script.js:91-96 | the drawn polyline, if any, leaves the map and is forgotten |
| Page.Session.ClearLocations | app/static/js/script.js:78-84 | whatever the prior state: no locations, no markers, no polyline, empty result text, optimize disabled, every old marker and polyline off the map, every old marker keeping its label |
| Page.Session.DisplayRoute | app/static/js/script.js:201-211 | the result text becomes the stop names joined by " --> ", or "No route available." for an empty route |
| Page.Session.DrawRoute | app/static/js/script.js:158-175 | the old polyline leaves the map, a fresh polyline along the path is on the map, the route's names are displayed, and the invariant is kept |
| Page.Session.BuildAndDrawPath | app/static/js/script.js:116-180 | fewer than two stops change nothing: the polyline reference, its `onMap` flag and the result text stay as they were; otherwise a fresh polyline along the stitched segments of the closed route replaces the old one, and the closed route's names are displayed |

## Left out

- The cvxpy formulation and solve in `solve_tsp_with_subtour_elimination` (app/tsp_solver.py:4-36) are not modelled. It is a foreign MIP solver working in floating point. The handler receives its result as a `SolveOutcome` value, and the matrix lemmas take any square integer matrix.
- Distances are integers. The source uses floating-point kilometres, and rounding is not modelled.
- app/utils.py is a Distance Matrix API client and is not part of this model. app/__init__.py is Flask setup and is not part of this model either.
- The `home` and `get_frontend_key` routes are template rendering and an environment lookup.
- The JSON body is taken as already parsed. A `locations` value that is not a list, and location records of another shape, are not modelled.
- Routes.OptimizeRoute: the debug `print` calls are not modelled.
- Only the solve outcome and the index errors of the comprehension are modelled. Exceptions from `jsonify` are not.
- The Google Maps widget, SearchBox, DirectionsService and `fitBounds` are reduced to what the code changes:
  - a marker's label and whether it is on the map;
  - a polyline's points and whether it is on the map;
  - each directions request's answer, as a resolved `DirectionsResult`.
- Page.Marker: the label is the number `labelNumber`. The source stores its decimal text.
- Points are compared as exact pairs of reals. Browser floating point is not modelled.
- `optimizeRoute`'s axios request and its alert and log error paths are not modelled. Neither is its guard against an empty `optimized_route` before `buildAndDrawPath`.
- The `Promise.all` fan-out and its asynchrony are left out. `BuildAndDrawPath` receives every segment's outcome at once, indexed by segment. A failed directions request never reaches the outer `.catch`, because each request has its own fallback; errors thrown inside the `.then` body are not modelled.
- The DOM list built by `updateLocationList` and all `console.log` and `console.error` calls are left out.
- Page.Session.RemoveLocation: the index is a `nat`. The only caller is the list's buttons, which pass 0..N-1, so negative indices are not modelled. In the source, `removeLocation(-1)` would splice out the last location and then throw on `markers[-1]`, so the two arrays would no longer line up.
- Page.Session.BuildAndDrawPath: the caller's array is not shown as extended in place. `route.push` also appends to the array the caller passed; in the model, PathBuilder.BuildPath returns the closed route as a new value.
- Page.Session.DisplayRoute: the `!route` case for a missing route is not modelled. Every caller passes an array.
- PathBuilder.SegmentsEmbedded: the no-loss property is proved only for chained segments, that is, when each segment ends where the next begins. Walking paths from the directions service need not meet exactly.
