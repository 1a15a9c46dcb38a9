/**
 * The page state of app/static/js/script.js: the global arrays `locations` and
 * `markers`, the drawn `currentPolyline`, the optimize button's `disabled` flag
 * and the result container's text, with the handlers that change them. Map
 * widgets are reduced to what the code changes on them: a marker's label and
 * whether it is on the map, a polyline's points and whether it is on the map.
 */
module Page {
  import opened Wrappers
  import opened Places
  import opened PathBuilder

  /** A `google.maps.Marker`: `setLabel` changes the label (the decimal text of `labelNumber`), `setMap(null)` clears `onMap`. */
  class Marker {
    const title: string
    const position: Point
    var labelNumber: nat
    var onMap: bool

    constructor (title: string, position: Point, labelNumber: nat)
      ensures this.title == title && this.position == position
      ensures this.labelNumber == labelNumber && onMap
    {
      this.title := title;
      this.position := position;
      this.labelNumber := labelNumber;
      onMap := true;
    }
  }

  /** A `google.maps.Polyline` drawn along `path`. */
  class Polyline {
    const path: seq<Point>
    var onMap: bool

    constructor (path: seq<Point>)
      ensures this.path == path && onMap
    {
      this.path := path;
      onMap := true;
    }
  }

  /** A search result: `geometry.location` is absent for places without coordinates. */
  datatype Place = Place(name: string, formattedAddress: string, geometry: Option<Point>)

  /** The location record the page builds from a place with coordinates. */
  function LocationOf(place: Place): (loc: Location)
    requires place.geometry.Some?
  {
    Location(place.name, place.formattedAddress, place.geometry.value.lat, place.geometry.value.lng)
  }

  /** The locations a batch of search results adds: those with coordinates, in order. */
  function Selected(places: seq<Place>): (r: seq<Location>)
    ensures |r| <= |places|
  {
    if places == [] then []
    else if places[0].geometry.Some? then [LocationOf(places[0])] + Selected(places[1..])
    else Selected(places[1..])
  }

  lemma {:induction false} SelectedAppend(places: seq<Place>, p: Place)
    ensures Selected(places + [p]) == Selected(places) + (if p.geometry.Some? then [LocationOf(p)] else [])
  {
    if places != [] {
      assert (places + [p])[1..] == places[1..] + [p];
      SelectedAppend(places[1..], p);
    } else {
      assert [] + [p] == [p];
    }
  }

  /**
   * Markers and locations are index-aligned (same name and coordinates) and no
   * marker object appears twice. Only constant fields are involved, so this does
   * not depend on the heap.
   */
  ghost predicate Aligned(markers: seq<Marker>, locations: seq<Location>) {
    |markers| == |locations| &&
    (forall k :: 0 <= k < |markers| ==>
      markers[k].title == locations[k].name && markers[k].position == PositionOf(locations[k])) &&
    (forall i, j :: 0 <= i < j < |markers| ==> markers[i] != markers[j])
  }

  /** Removing the same position from both sequences keeps them aligned. */
  lemma AlignedRemove(markers: seq<Marker>, locations: seq<Location>, index: nat)
    requires Aligned(markers, locations) && index < |markers|
    ensures Aligned(markers[..index] + markers[index + 1..], locations[..index] + locations[index + 1..])
    ensures markers[index] !in markers[..index] + markers[index + 1..]
  {
    var ms := markers[..index] + markers[index + 1..];
    var ls := locations[..index] + locations[index + 1..];
    forall k | 0 <= k < |ms|
      ensures ms[k] == markers[if k < index then k else k + 1]
      ensures ls[k] == locations[if k < index then k else k + 1]
    {
    }
  }

  /** Appending a fresh marker for a new location keeps them aligned. */
  lemma AlignedAppend(markers: seq<Marker>, locations: seq<Location>, m: Marker, loc: Location)
    requires Aligned(markers, locations) && m !in markers
    requires m.title == loc.name && m.position == PositionOf(loc)
    ensures Aligned(markers + [m], locations + [loc])
  {
  }

  /** The optimize button's gate in `updateLocationList`. */
  predicate OptimizeDisabled(count: nat) {
    count < 3
  }

  class Session {
    var locations: seq<Location>
    var markers: seq<Marker>
    var currentPolyline: Polyline?
    var optimizeDisabled: bool
    var result: string

    /**
     * The registry invariant: one marker per location, index-aligned (same name and
     * coordinates), labelled with its 1-based position, on the map, all distinct.
     */
    ghost predicate Valid()
      reads this`locations, this`markers, markers
    {
      Aligned(markers, locations) &&
      forall k :: 0 <= k < |markers| ==> markers[k].labelNumber == k + 1 && markers[k].onMap
    }

    /** The state on page load: nothing selected, nothing drawn. */
    constructor ()
      ensures Valid() && locations == [] && markers == [] && currentPolyline == null && result == ""
    {
      locations := [];
      markers := [];
      currentPolyline := null;
      result := "";
    }

    /** `updateLocationList`, reduced to the optimize button's gate. */
    method UpdateLocationList()
      modifies this`optimizeDisabled
      ensures optimizeDisabled == OptimizeDisabled(|locations|)
    {
      optimizeDisabled := |locations| < 3;
    }

    /** The `places.forEach` callback: a place with coordinates adds a location and its marker. */
    method SelectPlace(place: Place)
      requires Valid()
      modifies this
      ensures Valid()
      ensures place.geometry.None? ==>
        locations == old(locations) && markers == old(markers) && optimizeDisabled == old(optimizeDisabled)
      ensures place.geometry.Some? ==>
        locations == old(locations) + [LocationOf(place)] &&
        |markers| == |old(markers)| + 1 && markers[..|old(markers)|] == old(markers) &&
        fresh(markers[|markers| - 1]) && markers[|markers| - 1].labelNumber == |locations| &&
        optimizeDisabled == OptimizeDisabled(|locations|)
      ensures currentPolyline == old(currentPolyline) && result == old(result)
    {
      if place.geometry.None? {
        return;
      }
      var location := LocationOf(place);
      locations := locations + [location];
      var marker := new Marker(place.name, place.geometry.value, |locations|);
      AlignedAppend(markers, old(locations), marker, location);
      markers := markers + [marker];
      UpdateLocationList();
    }

    /** The `places_changed` listener: add every place that has coordinates, in order. */
    method PlacesChanged(places: Option<seq<Place>>)
      requires Valid()
      modifies this
      ensures Valid()
      ensures var added := if places.Some? then Selected(places.value) else [];
        locations == old(locations) + added &&
        |markers| == |locations| && markers[..|old(markers)|] == old(markers) &&
        (forall k :: |old(markers)| <= k < |markers| ==> fresh(markers[k])) &&
        optimizeDisabled == if added == [] then old(optimizeDisabled) else OptimizeDisabled(|locations|)
      ensures currentPolyline == old(currentPolyline) && result == old(result)
    {
      if places.None? || |places.value| == 0 {
        return;
      }
      var batch := places.value;
      for i := 0 to |batch|
        invariant Valid()
        invariant locations == old(locations) + Selected(batch[..i])
        invariant markers[..|old(markers)|] == old(markers)
        invariant forall k :: |old(markers)| <= k < |markers| ==> fresh(markers[k])
        invariant optimizeDisabled == if Selected(batch[..i]) == [] then old(optimizeDisabled) else OptimizeDisabled(|locations|)
        invariant currentPolyline == old(currentPolyline) && result == old(result)
      {
        SelectedAppend(batch[..i], batch[i]);
        assert batch[..i + 1] == batch[..i] + [batch[i]];
        SelectPlace(batch[i]);
      }
      assert batch[..|batch|] == batch;
    }

    /**
     * `removeLocation(index)`. For an index past the end, `locations.splice` changes
     * nothing and `markers[index].setMap` throws, so nothing changes (`threw`).
     * Otherwise the location and its marker leave both arrays, the marker leaves the
     * map, and the remaining markers are relabelled 1..N-1.
     */
    method RemoveLocation(index: nat) returns (threw: bool)
      requires Valid()
      modifies this, markers
      ensures Valid()
      ensures threw <==> index >= |old(locations)|
      ensures threw ==>
        locations == old(locations) && markers == old(markers) && optimizeDisabled == old(optimizeDisabled)
      ensures !threw ==>
        locations == old(locations[..index] + locations[index + 1..]) &&
        markers == old(markers[..index] + markers[index + 1..]) &&
        !old(markers[index]).onMap &&
        old(markers[index]).labelNumber == old(markers[index].labelNumber) &&
        optimizeDisabled == OptimizeDisabled(|locations|)
      ensures forall k :: 0 <= k < |markers| ==> markers[k].labelNumber == k + 1
      ensures currentPolyline == old(currentPolyline) && result == old(result)
    {
      if index >= |locations| {
        return true;
      }
      threw := false;
      AlignedRemove(markers, locations, index);
      var removed := markers[index];
      locations := locations[..index] + locations[index + 1..];
      removed.onMap := false;
      markers := markers[..index] + markers[index + 1..];
      ghost var kept, keptLocations := markers, locations;
      for i := 0 to |markers|
        invariant markers == kept && locations == keptLocations && Aligned(markers, locations)
        invariant currentPolyline == old(currentPolyline) && result == old(result)
        invariant forall k :: 0 <= k < i ==> markers[k].labelNumber == k + 1
        invariant forall k :: 0 <= k < |markers| ==> markers[k].onMap
        invariant !removed.onMap && removed.labelNumber == old(removed.labelNumber)
      {
        markers[i].labelNumber := i + 1;
      }
      UpdateLocationList();
    }

    /** `clearMarkers`: take every marker off the map and forget them. */
    method ClearMarkers()
      modifies this`markers, markers
      ensures markers == []
      ensures forall k :: 0 <= k < |old(markers)| ==> !old(markers)[k].onMap
      ensures forall m :: m in old(markers) ==> m.labelNumber == old(m.labelNumber)
    {
      for i := 0 to |markers|
        invariant markers == old(markers)
        invariant forall k :: 0 <= k < i ==> !markers[k].onMap
        invariant forall m :: m in markers ==> m.labelNumber == old(m.labelNumber)
      {
        markers[i].onMap := false;
      }
      markers := [];
    }

    /** `clearPaths`: take the drawn polyline, if any, off the map and forget it. */
    method ClearPaths()
      modifies this`currentPolyline, currentPolyline
      ensures currentPolyline == null
      ensures old(currentPolyline) != null ==> !old(currentPolyline).onMap
    {
      if currentPolyline != null {
        currentPolyline.onMap := false;
        currentPolyline := null;
      }
    }

    /** `clearLocations`: whatever the state, afterwards nothing is selected, drawn or displayed. */
    method ClearLocations()
      modifies this, markers, currentPolyline
      ensures Valid()
      ensures locations == [] && markers == [] && currentPolyline == null && result == ""
      ensures optimizeDisabled
      ensures forall k :: 0 <= k < |old(markers)| ==> !old(markers)[k].onMap
      ensures forall m :: m in old(markers) ==> m.labelNumber == old(m.labelNumber)
      ensures old(currentPolyline) != null ==> !old(currentPolyline).onMap
    {
      locations := [];
      ClearMarkers();
      ClearPaths();
      UpdateLocationList();
      result := "";
    }

    /** `displayRoute`: the stop names joined by " --> ", or a notice for an empty route. */
    method DisplayRoute(route: seq<Location>)
      modifies this`result
      ensures result == RouteText(route)
    {
      if |route| == 0 {
        result := NoRoute;
        return;
      }
      result := Join(Names(route), Separator);
    }

    /**
     * The drawing half of `buildAndDrawPath`: the previous polyline leaves the map, a
     * new one is drawn along `path`, and the route's names are displayed.
     */
    method DrawRoute(route: seq<Location>, path: seq<Point>)
      modifies this`currentPolyline, this`result, currentPolyline
      ensures currentPolyline != null && fresh(currentPolyline) && currentPolyline.onMap
      ensures currentPolyline.path == path && result == RouteText(route)
      ensures old(currentPolyline) != null ==> !old(currentPolyline).onMap
      ensures old(Valid()) ==> Valid()
    {
      ClearPaths();
      currentPolyline := new Polyline(path);
      DisplayRoute(route);
    }

    /**
     * `buildAndDrawPath(route)` once every directions request has settled: a route
     * of fewer than two stops changes nothing; otherwise the closed route's segments
     * are stitched into one path, which replaces the drawn polyline, and the closed
     * route's names are displayed.
     */
    method BuildAndDrawPath(route: seq<Location>, results: seq<DirectionsResult>)
      requires |route| >= 2 ==> |results| == |CloseRoute(route).value|
      modifies this`currentPolyline, this`result, currentPolyline
      ensures |route| < 2 ==> currentPolyline == old(currentPolyline) && result == old(result)
      ensures |route| < 2 && old(currentPolyline) != null ==>
        old(currentPolyline).onMap == old(currentPolyline.onMap)
      ensures |route| >= 2 ==>
        var closed := CloseRoute(route).value;
        currentPolyline != null && fresh(currentPolyline) && currentPolyline.onMap &&
        currentPolyline.path == CompletePath(SegmentPaths(closed, results)) &&
        result == RouteText(closed) &&
        (old(currentPolyline) != null ==> !old(currentPolyline).onMap)
    {
      if |route| < 2 {
        return;
      }
      var closed, completePath := BuildPath(route, results);
      DrawRoute(closed, completePath);
    }
  }
}
