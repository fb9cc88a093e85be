/**
 The primitives the cover search is built on, kept abstract: the geohash
 codec (exact decoding and the adjacency table) and the target polygon's
 geometric predicates. They are supplied as function values, so nothing is
 assumed about them beyond what each lemma or method states it requires.
 */
module Grid {
  import opened Footprint

  /** A geohash cell, identified by its base-32 string. */
  type Geohash = string

  /** A key of the codec's adjacency table (a grid direction). */
  type Direction = string

  /** Strict containment (inner = True) or mere intersection (inner = False). */
  datatype Mode = Inner | Touching

  /**
   The collaborators of one search: the codec, and the target polygon
   together with its envelope, each seen only through a predicate on rings.
   */
  datatype Primitives = Primitives(
    decode: Geohash -> Decoded,
    directions: seq<Direction>,
    adjacent: (Geohash, Direction) -> Geohash,
    envelopeContains: Ring -> bool,
    envelopeIntersects: Ring -> bool,
    polygonContains: Ring -> bool,
    polygonIntersects: Ring -> bool)

  /** The cells adjacent to `c`, one per direction of the table, in table order. */
  function Neighbors(p: Primitives, c: Geohash): (ns: seq<Geohash>)
    ensures |ns| == |p.directions|
    ensures forall i :: 0 <= i < |ns| ==> ns[i] == p.adjacent(c, p.directions[i])
    ensures forall n :: n in ns <==> exists i :: 0 <= i < |p.directions| && n == p.adjacent(c, p.directions[i])
  {
    var ns := seq(|p.directions|, i requires 0 <= i < |p.directions| => p.adjacent(c, p.directions[i]));
    assert forall n :: n in ns ==> exists i :: 0 <= i < |p.directions| && n == p.adjacent(c, p.directions[i]) by {
      forall n | n in ns ensures exists i :: 0 <= i < |p.directions| && n == p.adjacent(c, p.directions[i]) {
        var i :| 0 <= i < |ns| && ns[i] == n;
      }
    }
    assert forall i :: 0 <= i < |p.directions| ==> ns[i] == p.adjacent(c, p.directions[i]);
    ns
  }

  /** The footprint ring of a cell. */
  function CellPolygon(p: Primitives, c: Geohash): Ring
  {
    GeohashToPolygon(p.decode(c))
  }

  /** The cheap pruning test against the polygon's envelope. */
  predicate EnvOk(p: Primitives, mode: Mode, c: Geohash)
  {
    match mode
    case Inner => p.envelopeContains(CellPolygon(p, c))
    case Touching => p.envelopeIntersects(CellPolygon(p, c))
  }

  /** The classification test against the polygon itself. */
  predicate PolyOk(p: Primitives, mode: Mode, c: Geohash)
  {
    match mode
    case Inner => p.polygonContains(CellPolygon(p, c))
    case Touching => p.polygonIntersects(CellPolygon(p, c))
  }
}
