/**
 * The sequence logic of `buildAndDrawPath` and `displayRoute` in
 * app/static/js/script.js: closing the route, pairing its stops into walking
 * segments (with a straight-line fallback), stitching the segments into one
 * path, and the itinerary text. Directions results arrive already resolved,
 * indexed by segment position.
 */
module PathBuilder {
  import opened Wrappers
  import opened Places

  /** The page's closure test: `first.lat === last.lat && first.lng === last.lng`. */
  predicate SameSpot(a: Location, b: Location) {
    a.lat == b.lat && a.lng == b.lng
  }

  /**
   * The first step of `buildAndDrawPath`: a route of fewer than 2 stops is refused;
   * otherwise a copy of the first stop is pushed when the last stop is elsewhere.
   */
  function CloseRoute(route: seq<Location>): (r: Option<seq<Location>>)
    ensures r.None? <==> |route| < 2
    ensures r.Some? ==> 2 <= |route| <= |r.value| <= |route| + 1 && r.value[..|route|] == route
    ensures r.Some? ==> SameSpot(r.value[0], r.value[|r.value| - 1])
    ensures r.Some? ==> (|r.value| == |route| <==> SameSpot(route[0], route[|route| - 1]))
    ensures r.Some? && |r.value| > |route| ==> r.value == route + [route[0]]
  {
    if |route| < 2 then None
    else if !SameSpot(route[0], route[|route| - 1]) then Some(route + [route[0]])
    else Some(route)
  }

  /** Closing is idempotent: a closed route comes back unchanged. */
  lemma CloseRouteIdempotent(route: seq<Location>)
    requires CloseRoute(route).Some?
    ensures CloseRoute(CloseRoute(route).value) == CloseRoute(route)
  {
  }

  /** What the directions provider answered for one segment. */
  datatype DirectionsResult =
    | Walked(overviewPath: seq<Point>)  // status "OK": `routes[0].overview_path`
    | Failed(status: string)            // any other status: the promise rejects

  /** One segment's points: the walking path, or the straight line `[start, end]` when directions failed. */
  function SegmentPath(start: Location, end: Location, result: DirectionsResult): (path: seq<Point>) {
    match result
    case Walked(path) => path
    case Failed(_) => [PositionOf(start), PositionOf(end)]
  }

  /** The stop where segment `i` ends: the next stop, wrapping around to the first (`(i + 1) % route.length`). */
  function SegmentEnd(route: seq<Location>, i: nat): (end: Location)
    requires i < |route|
  {
    if i + 1 < |route| then route[i + 1] else route[0]
  }

  /** The first `count` resolved segments: segment i runs from stop i to `SegmentEnd(route, i)`. */
  function SegmentsUpTo(route: seq<Location>, results: seq<DirectionsResult>, count: nat): (r: seq<seq<Point>>)
    requires |results| == |route| && count <= |route|
    ensures |r| == count
    ensures forall i :: 0 <= i < count ==> r[i] == SegmentPath(route[i], SegmentEnd(route, i), results[i])
  {
    if count == 0 then []
    else SegmentsUpTo(route, results, count - 1) + [SegmentPath(route[count - 1], SegmentEnd(route, count - 1), results[count - 1])]
  }

  /** The resolved segments, one per stop of the route. */
  function SegmentPaths(route: seq<Location>, results: seq<DirectionsResult>): (segments: seq<seq<Point>>)
    requires |results| == |route|
  {
    SegmentsUpTo(route, results, |route|)
  }

  /** The `for` loop that issues one directions request per stop, each falling back to a straight line. */
  method ResolveSegments(route: seq<Location>, results: seq<DirectionsResult>) returns (segments: seq<seq<Point>>)
    requires |results| == |route|
    ensures |segments| == |route|
    ensures forall i :: 0 <= i < |route| && results[i].Walked? ==> segments[i] == results[i].overviewPath
    ensures forall i :: 0 <= i < |route| && results[i].Failed? ==>
      segments[i] == [PositionOf(route[i]), PositionOf(SegmentEnd(route, i))]
    ensures segments == SegmentPaths(route, results)
  {
    segments := [];
    for i := 0 to |route|
      invariant segments == SegmentsUpTo(route, results, i)
    {
      var start := route[i];
      var end := route[(i + 1) % |route|];
      WrapNext(i, |route|);
      segments := segments + [SegmentPath(start, end, results[i])];
    }
  }

  lemma WrapNext(i: nat, n: nat)
    requires i < n
    ensures (i + 1) % n == if i + 1 < n then i + 1 else 0
  {
  }

  /**
   * On a route that had to be closed, segment i (for i below the original length)
   * runs between consecutive stops of the original route, the one from its last
   * stop back to its first included; the extra final segment runs from the pushed
   * copy of the first stop back to the first stop, so both its ends are the same spot.
   */
  lemma ClosedRouteSegments(route: seq<Location>)
    requires |route| >= 2 && !SameSpot(route[0], route[|route| - 1])
    ensures var closed := CloseRoute(route).value;
      |closed| == |route| + 1 &&
      (forall i :: 0 <= i < |route| - 1 ==> closed[i] == route[i] && SegmentEnd(closed, i) == SegmentEnd(route, i)) &&
      SegmentEnd(closed, |route| - 1) == route[0] && SegmentEnd(closed, |route|) == route[0] &&
      closed[|route| - 1] == route[|route| - 1] && closed[|route|] == route[0]
  {
  }

  /** The last segment of every closed route starts and ends at the same spot. */
  lemma FinalSegmentDegenerate(route: seq<Location>, results: seq<DirectionsResult>)
    requires CloseRoute(route).Some? && |results| == |CloseRoute(route).value|
    ensures var closed := CloseRoute(route).value;
      var last := |closed| - 1;
      SameSpot(closed[last], SegmentEnd(closed, last)) &&
      (results[last].Failed? ==>
        SegmentPaths(closed, results)[last] == [PositionOf(closed[0]), PositionOf(closed[0])])
  {
  }

  /** `segment.slice(0, -1)`: every point but the last (nothing from an empty list). */
  function DropLast(s: seq<Point>): (trimmed: seq<Point>) {
    if s == [] then [] else s[..|s| - 1]
  }

  /** The concatenation of the given segments, each with its last point dropped. */
  function Trimmed(segments: seq<seq<Point>>): (points: seq<Point>) {
    if segments == [] then []
    else Trimmed(segments[..|segments| - 1]) + DropLast(segments[|segments| - 1])
  }

  /** The complete path: every segment but the last trimmed, the last appended whole. */
  function CompletePath(segments: seq<seq<Point>>): (path: seq<Point>) {
    if segments == [] then []
    else Trimmed(segments[..|segments| - 1]) + segments[|segments| - 1]
  }

  /** The `forEach` that accumulates `completePath` segment by segment. */
  method AssemblePath(segments: seq<seq<Point>>) returns (completePath: seq<Point>)
    ensures completePath == CompletePath(segments)
  {
    completePath := [];
    var count := |segments|;
    for index := 0 to count
      invariant index < count ==> completePath == Trimmed(segments[..index])
      invariant index == count ==> completePath == CompletePath(segments)
    {
      var segment := segments[index];
      assert segments[..index + 1][..index] == segments[..index];
      if index < count - 1 {
        completePath := completePath + DropLast(segment);
      } else {
        assert segments[..index] == segments[..count - 1];
        completePath := completePath + segment;
      }
    }
  }

  /**
   * The drawing-free part of `buildAndDrawPath`: close the route when its last stop
   * is not at its first stop's coordinates, resolve one segment per stop of the
   * closed route, and stitch the segments into one path.
   */
  method BuildPath(route: seq<Location>, results: seq<DirectionsResult>) returns (closed: seq<Location>, completePath: seq<Point>)
    requires |route| >= 2 && |results| == |CloseRoute(route).value|
    ensures closed == CloseRoute(route).value
    ensures completePath == CompletePath(SegmentPaths(closed, results))
  {
    closed := route;
    var first := closed[0];
    var last := closed[|closed| - 1];
    if first.lat != last.lat || first.lng != last.lng {
      closed := closed + [first];
    }
    var segments := ResolveSegments(closed, results);
    completePath := AssemblePath(segments);
  }

  /**
   * Consecutive segments meet: each is non-empty and ends where the next one
   * starts. Stated from the back, the way the path grows: the segments but the
   * last are chained, the last is non-empty, and it starts where the one before
   * it ends.
   */
  ghost predicate Chained(segments: seq<seq<Point>>) {
    segments == [] ||
    (Chained(segments[..|segments| - 1]) && segments[|segments| - 1] != [] &&
     (|segments| >= 2 ==>
        var x := segments[|segments| - 2]; x != [] && x[|x| - 1] == segments[|segments| - 1][0]))
  }

  /** Chained segments are each non-empty and each ends where the next one starts. */
  lemma {:induction false} ChainedMeet(segments: seq<seq<Point>>, i: nat)
    requires Chained(segments) && i < |segments|
    ensures segments[i] != []
    ensures i + 1 < |segments| ==>
      segments[i + 1] != [] && segments[i][|segments[i]| - 1] == segments[i + 1][0]
  {
    var n := |segments|;
    if i < n - 1 {
      var init := segments[..n - 1];
      ChainedMeet(init, i);
      if i + 1 < n - 1 {
        assert init[i] == segments[i] && init[i + 1] == segments[i + 1];
      }
    }
  }

  /**
   * Appending a segment that starts where the path ends adds only its new points:
   * the shared junction point appears once.
   */
  lemma {:induction false} GlueSegment(segments: seq<seq<Point>>, s: seq<Point>)
    requires segments != [] && s != []
    requires var x := segments[|segments| - 1]; x != [] && x[|x| - 1] == s[0]
    ensures CompletePath(segments + [s]) == CompletePath(segments) + s[1..]
  {
    var n := |segments|;
    var all := segments + [s];
    var x := segments[n - 1];
    assert all[..n] == segments && all[n] == s;
    assert DropLast(x) + s == x + s[1..];
  }

  /**
   * For chained segments nothing is lost: segment i appears whole in the complete
   * path, right after the earlier segments with their (shared) last points dropped.
   */
  lemma {:induction false} SegmentsEmbedded(segments: seq<seq<Point>>, i: nat)
    requires Chained(segments) && i < |segments|
    ensures var before := Trimmed(segments[..i]) + segments[i];
      |before| <= |CompletePath(segments)| && CompletePath(segments)[..|before|] == before
  {
    var n := |segments|;
    if i < n - 1 {
      SegmentsEmbedded(segments[..n - 1], i);
      EmbeddedStep(segments, i);
    } else {
      LastEmbedded(segments);
    }
  }

  /** The last segment ends the complete path, right after the trimmed earlier ones. */
  lemma LastEmbedded(segments: seq<seq<Point>>)
    requires segments != []
    ensures var before := Trimmed(segments[..|segments| - 1]) + segments[|segments| - 1];
      |before| <= |CompletePath(segments)| && CompletePath(segments)[..|before|] == before
  {
    var before := Trimmed(segments[..|segments| - 1]) + segments[|segments| - 1];
    assert before == CompletePath(segments);
    assert before[..|before|] == before;
  }

  /**
   * Gluing one more chained segment keeps every earlier segment's place in the
   * path: the inductive step of `SegmentsEmbedded`.
   */
  lemma EmbeddedStep(segments: seq<seq<Point>>, i: nat)
    requires i < |segments| - 1
    requires var x, y := segments[|segments| - 2], segments[|segments| - 1];
      x != [] && y != [] && x[|x| - 1] == y[0]
    requires var init := segments[..|segments| - 1]; var before := Trimmed(init[..i]) + init[i];
      |before| <= |CompletePath(init)| && CompletePath(init)[..|before|] == before
    ensures var before := Trimmed(segments[..i]) + segments[i];
      |before| <= |CompletePath(segments)| && CompletePath(segments)[..|before|] == before
  {
    var n := |segments|;
    var init := segments[..n - 1];
    GlueLast(segments);
    assert init[..i] == segments[..i] && init[i] == segments[i];
    var before := Trimmed(segments[..i]) + segments[i];
    PrefixExtend(CompletePath(init), segments[n - 1][1..], |before|);
  }

  /** `GlueSegment` stated on the whole sequence: the last segment adds its points after the junction. */
  lemma GlueLast(segments: seq<seq<Point>>)
    requires |segments| >= 2
    requires var x, y := segments[|segments| - 2], segments[|segments| - 1];
      x != [] && y != [] && x[|x| - 1] == y[0]
    ensures CompletePath(segments) ==
      CompletePath(segments[..|segments| - 1]) + segments[|segments| - 1][1..]
  {
    var n := |segments|;
    var init, x, y := segments[..n - 1], segments[n - 2], segments[n - 1];
    assert init[..n - 2] == segments[..n - 2] && init[n - 2] == x;
    assert DropLast(x) + y == x + y[1..];
  }

  lemma PrefixExtend(a: seq<Point>, b: seq<Point>, k: nat)
    requires k <= |a|
    ensures (a + b)[..k] == a[..k]
  {
  }

  // ------------------------------------------------------------- displayRoute

  const Separator := " --> "
  const NoRoute := "No route available."

  /** `names.join(sep)`. */
  function Join(names: seq<string>, sep: string): (joined: string) {
    if names == [] then ""
    else if |names| == 1 then names[0]
    else names[0] + sep + Join(names[1..], sep)
  }

  function Names(route: seq<Location>): (names: seq<string>)
    ensures |names| == |route| && forall k :: 0 <= k < |route| ==> names[k] == route[k].name
  {
    if route == [] then [] else [route[0].name] + Names(route[1..])
  }

  /** The text `displayRoute` puts in the result container. */
  function RouteText(route: seq<Location>): (text: string) {
    if route == [] then NoRoute else Join(Names(route), Separator)
  }

  /** Joining a concatenation puts one separator between the two joined halves. */
  lemma {:induction false} JoinAppend(a: seq<string>, b: seq<string>, sep: string)
    requires a != [] && b != []
    ensures Join(a + b, sep) == Join(a, sep) + sep + Join(b, sep)
  {
    if |a| == 1 {
      assert (a + b)[1..] == b;
    } else {
      assert (a + b)[1..] == a[1..] + b;
      JoinAppend(a[1..], b, sep);
    }
  }

  function TotalLength(names: seq<string>): (total: nat) {
    if names == [] then 0 else |names[0]| + TotalLength(names[1..])
  }

  /**
   * The itinerary text of a non-empty route begins with the first stop's name,
   * ends with the last stop's name, and is the names' total length plus one
   * separator between each two stops; stop by stop, it is the first name, the
   * separator, then the text of the remaining stops.
   */
  lemma {:induction false} RouteTextShape(route: seq<Location>)
    requires route != []
    ensures var text := RouteText(route);
      |text| == TotalLength(Names(route)) + |Separator| * (|route| - 1) &&
      |route[0].name| <= |text| && |route[|route| - 1].name| <= |text| &&
      text[..|route[0].name|] == route[0].name &&
      text[|text| - |route[|route| - 1].name|..] == route[|route| - 1].name
    ensures |route| == 1 ==> RouteText(route) == route[0].name
    ensures |route| >= 2 ==> RouteText(route) == route[0].name + Separator + RouteText(route[1..])
  {
    JoinShape(Names(route), Separator);
    assert Names(route)[1..] == Names(route[1..]);
  }

  lemma {:induction false} JoinShape(names: seq<string>, sep: string)
    requires names != []
    ensures var text := Join(names, sep);
      |text| == TotalLength(names) + |sep| * (|names| - 1) &&
      |names[0]| <= |text| && text[..|names[0]|] == names[0] &&
      |names[|names| - 1]| <= |text| && text[|text| - |names[|names| - 1]|..] == names[|names| - 1]
  {
    if |names| > 1 {
      JoinShape(names[1..], sep);
      var rest := Join(names[1..], sep);
      var text := names[0] + sep + rest;
      assert text[..|names[0]|] == names[0];
      assert names[1..][|names[1..]| - 1] == names[|names| - 1];
      assert text[|text| - |names[|names| - 1]|..] == rest[|rest| - |names[|names| - 1]|..];
    }
  }
}
