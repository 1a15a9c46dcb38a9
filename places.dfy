/**
 * The location record exchanged between the page and the server:
 * `{ name, address, lat, lng }`, and the map coordinate built from it.
 */
module Places {
  /** A map coordinate (`google.maps.LatLng`); only equality is used. */
  datatype Point = Point(lat: real, lng: real)

  /** One user-selected point of interest. */
  datatype Location = Location(name: string, address: string, lat: real, lng: real)

  /** The coordinate of a location, as the page builds it with `new LatLng(loc.lat, loc.lng)`. */
  function PositionOf(loc: Location): (p: Point) {
    Point(loc.lat, loc.lng)
  }
}
