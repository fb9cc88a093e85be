/**
 The rectangular footprint of one geohash cell (geohash_to_polygon).

 The geohash codec decodes a cell to its exact centre and half-extents in
 (latitude, longitude) order; the footprint is the closed ring through the
 four corners of that box, each corner emitted in (longitude, latitude)
 order, i.e. as (x, y) for the geometry backend.
 */
module Footprint {

  /** A vertex in the geometry backend's (x, y) = (longitude, latitude) order. */
  datatype Point = Point(x: real, y: real)

  /** Result of decoding a geohash exactly: centre and half-extents. */
  datatype Decoded = Decoded(lat: real, lng: real, latOffset: real, lngOffset: real)

  type Ring = seq<Point>

  /** A (lat, lng) pair reversed into (lng, lat) vertex order. */
  function FromLatLng(lat: real, lng: real): Point
  {
    Point(lng, lat)
  }

  /** The closed footprint ring of a decoded cell. */
  function GeohashToPolygon(d: Decoded): (ring: Ring)
    ensures |ring| == 5 && ring[0] == ring[4]
    ensures ring[0] == Point(d.lng - d.lngOffset, d.lat - d.latOffset)
    ensures ring[1] == Point(d.lng + d.lngOffset, d.lat - d.latOffset)
    ensures ring[2] == Point(d.lng + d.lngOffset, d.lat + d.latOffset)
    ensures ring[3] == Point(d.lng - d.lngOffset, d.lat + d.latOffset)
    ensures forall i :: 0 <= i < 4 ==> ring[i].x == ring[i + 1].x || ring[i].y == ring[i + 1].y
  {
    var corner1 := FromLatLng(d.lat - d.latOffset, d.lng - d.lngOffset);
    var corner2 := FromLatLng(d.lat - d.latOffset, d.lng + d.lngOffset);
    var corner3 := FromLatLng(d.lat + d.latOffset, d.lng + d.lngOffset);
    var corner4 := FromLatLng(d.lat + d.latOffset, d.lng - d.lngOffset);
    [corner1, corner2, corner3, corner4, corner1]
  }

  /** Twice the signed area of a ring (shoelace formula); positive when counter-clockwise. */
  function TwiceSignedArea(ring: Ring): real
    decreases |ring|
  {
    if |ring| < 2 then 0.0
    else ring[0].x * ring[1].y - ring[1].x * ring[0].y + TwiceSignedArea(ring[1..])
  }

  function MinX(ring: Ring): real
    requires |ring| > 0
  {
    if |ring| == 1 then ring[0].x
    else var m := MinX(ring[1..]); if ring[0].x <= m then ring[0].x else m
  }

  function MaxX(ring: Ring): real
    requires |ring| > 0
  {
    if |ring| == 1 then ring[0].x
    else var m := MaxX(ring[1..]); if ring[0].x >= m then ring[0].x else m
  }

  function MinY(ring: Ring): real
    requires |ring| > 0
  {
    if |ring| == 1 then ring[0].y
    else var m := MinY(ring[1..]); if ring[0].y <= m then ring[0].y else m
  }

  function MaxY(ring: Ring): real
    requires |ring| > 0
  {
    if |ring| == 1 then ring[0].y
    else var m := MaxY(ring[1..]); if ring[0].y >= m then ring[0].y else m
  }

  /**
   The footprint encloses exactly the area of the decoded box,
   (2 * lngOffset) * (2 * latOffset), and is traversed counter-clockwise.
   */
  lemma FootprintArea(d: Decoded)
    ensures TwiceSignedArea(GeohashToPolygon(d)) == 2.0 * (2.0 * d.lngOffset) * (2.0 * d.latOffset)
  {
    var r := GeohashToPolygon(d);
    var x, y, u, v := d.lng, d.lat, d.lngOffset, d.latOffset;
    assert r[0].x * r[1].y - r[1].x * r[0].y == -2.0 * u * (y - v);
    assert r[1].x * r[2].y - r[2].x * r[1].y == 2.0 * v * (x + u);
    assert r[2].x * r[3].y - r[3].x * r[2].y == 2.0 * u * (y + v);
    assert r[3].x * r[4].y - r[4].x * r[3].y == -2.0 * v * (x - u);
    assert TwiceSignedArea(r[4..]) == 0.0;
    assert TwiceSignedArea(r[3..]) == -2.0 * v * (x - u);
    assert TwiceSignedArea(r[2..]) == 2.0 * u * (y + v) - 2.0 * v * (x - u);
    assert TwiceSignedArea(r[1..]) == 2.0 * v * (x + u) + 2.0 * u * (y + v) - 2.0 * v * (x - u);
  }

  /** With non-negative half-extents the footprint's bounding box is the decoded cell. */
  lemma FootprintBounds(d: Decoded)
    requires d.latOffset >= 0.0 && d.lngOffset >= 0.0
    ensures MinX(GeohashToPolygon(d)) == d.lng - d.lngOffset
    ensures MaxX(GeohashToPolygon(d)) == d.lng + d.lngOffset
    ensures MinY(GeohashToPolygon(d)) == d.lat - d.latOffset
    ensures MaxY(GeohashToPolygon(d)) == d.lat + d.latOffset
  {
    var r := GeohashToPolygon(d);
    var x0, x1, y0, y1 := d.lng - d.lngOffset, d.lng + d.lngOffset, d.lat - d.latOffset, d.lat + d.latOffset;
    assert |r[4..]| == 1 && r[4..][0] == r[0];
    assert MinX(r[3..]) == x0 && MaxX(r[3..]) == x0 && MinY(r[3..]) == y0 && MaxY(r[3..]) == y1;
    assert MinX(r[2..]) == x0 && MaxX(r[2..]) == x1 && MinY(r[2..]) == y0 && MaxY(r[2..]) == y1;
    assert MinX(r[1..]) == x0 && MaxX(r[1..]) == x1 && MinY(r[1..]) == y0 && MaxY(r[1..]) == y1;
  }

  /** With positive half-extents the four corners are pairwise distinct. */
  lemma FootprintCornersDistinct(d: Decoded)
    requires d.latOffset > 0.0 && d.lngOffset > 0.0
    ensures forall i, j :: 0 <= i < j < 4 ==> GeohashToPolygon(d)[i] != GeohashToPolygon(d)[j]
  {
  }
}
