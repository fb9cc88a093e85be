# polygon-geohasher: the cell-cover flood fill, modelled in Dafny

The library turns a polygon into the set of geohash cells (fixed-precision
grid squares named by base-32 strings) that approximate it, and turns a
geohash back into its rectangular footprint polygon. This project models:

- `polygon_to_geohashes`: the breadth-first flood fill that discovers the
  cover. It starts from the cell of the polygon's centroid and pops cells
  from a FIFO queue. Each cell not yet in `inner` or `outer` is screened by
  an envelope test ("the envelope contains the footprint" in Inner mode,
  "intersects" in Touching mode). A cell that passes is classified by the
  matching polygon test, and its neighbours not yet classified are queued.
- `geohash_to_polygon`: the closed 5-point footprint ring built from the
  decoded centre and half-extents, with each (lat, lng) corner reversed into
  (lng, lat) order.
- `_neighbors`: one adjacent cell per direction of the codec's table.

Files and modules:

- `footprint.dfy` (`Footprint`): points, decoded cells, the footprint ring,
  and its shoelace area and bounding box.
- `grid.dfy` (`Grid`): the abstract primitives. These are the codec's
  `decode` and adjacency table, and the target polygon's four ring
  predicates (envelope or polygon, contains or intersects). They are bundled
  in the datatype `Primitives` as function values. Also here: the
  neighbour list and the two mode-dependent tests `EnvOk` and `PolyOk`,
  both applied to the cell's footprint ring as the source does.
- `cover.dfy` (`CoverSearch`): the search. `Visit` is a pure function
  stating one loop iteration. `PolygonToGeohashes` is the imperative loop,
  and each iteration is proved equal to `Visit`. The reference definition is
  `Reachable`: a cell is reachable when a walk from the seed reaches it
  through envelope-passing cells, stepping to neighbours. When the loop
  ends, `inner` is exactly the reachable cells that pass the polygon test,
  and `outer` is the reachable cells that fail it.

The search terminates when there is a finite ghost set `universe` that
holds the seed (if the seed passes the envelope test) and is closed under
expansion: every envelope-passing neighbour of a member is a member. The
cells of the seed's precision that pass the envelope test form such a set,
because adjacency keeps the precision and the envelope has finite area.
The loop's measure is lexicographic: first the number of universe cells
not yet classified, then the queue length.

Two details of the code:

- `_neighbors` yields one cell per key of pygeohash's direction table. The
  table is a parameter here, so the neighbour count is not fixed.
- The corners are emitted counter-clockwise: `FootprintArea` proves the
  signed area is positive when both half-extents are.

## Model

| member | source | states |
|---|---|---|
| `Footprint.GeohashToPolygon` | polygon_geohasher/polygon_geohasher.py:19-26 | The ring has 5 points and is closed (first = last). The corners come in (lng, lat) order: (lng-dLng, lat-dLat), (lng+dLng, lat-dLat), (lng+dLng, lat+dLat), (lng-dLng, lat+dLat). Consecutive points share an x or a y, so every edge is axis-aligned. |
| `Footprint.FootprintArea` | polygon_geohasher/polygon_geohasher.py:21-26 | The ring's shoelace signed area is (2 dLng)(2 dLat). So the ring is counter-clockwise and encloses exactly the decoded box's area, which is not degenerate when both offsets are positive. |
| `Footprint.FootprintBounds` | polygon_geohasher/polygon_geohasher.py:19-26 | With non-negative half-extents, the ring's min/max x and min/max y are the decoded cell's longitude and latitude bounds. The footprint reproduces the cell's bounding box with the axes swapped correctly. |
| `Footprint.FootprintCornersDistinct` | polygon_geohasher/polygon_geohasher.py:21-24 | With positive half-extents the four corners are pairwise distinct. |
| `Grid.Neighbors` | polygon_geohasher/polygon_geohasher.py:9-11 | There is one neighbour per direction of the table, in table order: entry i is the adjacent cell in direction i. A cell is in the list exactly when it is the adjacent cell in some direction of the table. |
| `CoverSearch.Unclassified` | polygon_geohasher/polygon_geohasher.py:71-76 | The filtered list holds exactly the neighbours that are in neither visited set, and is no longer than the neighbour list. |
| `CoverSearch.UnclassifiedKeepsAll` | polygon_geohasher/polygon_geohasher.py:71-76 | When none of the neighbours is classified, the filtered list is the whole list, unchanged. The proof is by induction. |
| `CoverSearch.UnclassifiedAppend` | polygon_geohasher/polygon_geohasher.py:71-76 | Filtering distributes over concatenation, so the kept neighbours stay in their original relative order. The proof is by induction. |
| `CoverSearch.EnqueueUnclassified` | polygon_geohasher/polygon_geohasher.py:71-76 | The loop appends, in order, exactly the unclassified neighbours to the end of the queue. |
| `CoverSearch.Visit` | polygon_geohasher/polygon_geohasher.py:46-76 | One iteration: both sets only grow, and by at most the popped cell. A popped cell already in either set is not re-tested, re-classified or re-expanded, and the state is unchanged apart from the pop. A cell failing the envelope test changes neither set and queues nothing. Any other cell goes to `inner` exactly when it passes the polygon test and to `outer` otherwise. Disjointness is kept. The rest of the queue stays ahead, in order. The new queue entries are exactly the unclassified neighbours of a newly classified cell, whether it went to `inner` or `outer`. |
| `CoverSearch.ReachableSeed` | polygon_geohasher/polygon_geohasher.py:42-43 | The seed cell is reachable when it passes the envelope test. |
| `CoverSearch.ReachableStep` | polygon_geohasher/polygon_geohasher.py:71-76 | An envelope-passing neighbour of a reachable cell is reachable. |
| `CoverSearch.ReachablePassesEnvelope` | polygon_geohasher/polygon_geohasher.py:54-60 | Only cells that pass the envelope test are reachable. |
| `CoverSearch.WalkWithin` | polygon_geohasher/polygon_geohasher.py:45-76 | Every walk from the seed ends inside any set that holds the seed and is closed under envelope-passing expansion. The proof is by induction on the walk. |
| `CoverSearch.ReachableIsLeastClosed` | polygon_geohasher/polygon_geohasher.py:45-76 | The reachable cells lie inside every set closed from the seed. The flood fill's target is the least such set. |
| `CoverSearch.InitialInv` | polygon_geohasher/polygon_geohasher.py:36-43 | The empty sets and the one-seed queue satisfy the loop invariant: soundness, traceability and frontier closure. |
| `CoverSearch.VisitKeepsSound` | polygon_geohasher/polygon_geohasher.py:48-70 | One iteration keeps the two sets disjoint. It classifies soundly: `inner` cells passed both tests, `outer` cells passed the envelope and failed the polygon. |
| `CoverSearch.VisitKeepsTraced` | polygon_geohasher/polygon_geohasher.py:46-76 | One iteration keeps every classified cell, and every envelope-passing queued cell, reachable from the seed. |
| `CoverSearch.VisitKeepsFrontier` | polygon_geohasher/polygon_geohasher.py:45-76 | One iteration keeps closure modulo the queue. Every envelope-passing neighbour of a classified cell, and the seed, is classified or still queued. |
| `CoverSearch.VisitPreservesInv` | polygon_geohasher/polygon_geohasher.py:45-76 | One iteration preserves the whole loop invariant. |
| `CoverSearch.DrainedCover` | polygon_geohasher/polygon_geohasher.py:45-78 | Once the queue is empty, `inner` is exactly the reachable cells that pass the polygon test. `outer` is exactly the reachable cells that fail it. |
| `CoverSearch.ClassifyShrinks` | polygon_geohasher/polygon_geohasher.py:60-70 | Classifying a new envelope-passing cell strictly lowers the number of unclassified cells of the finite universe. This drives termination. |
| `CoverSearch.PolygonToGeohashes` | polygon_geohasher/polygon_geohasher.py:29-78 | If some finite set holds the seed and is closed under envelope-passing expansion, the loop terminates. `inner` and `outer` are disjoint. Every returned cell passed both tests, and every `outer` cell passed the envelope and failed the polygon. The returned set is exactly the reachable cells that pass the polygon test, and `outer` the reachable ones that fail it. At termination every neighbour of a classified cell is classified or fails the envelope test. |
| `CoverSearch.OnlySeedReachable` | tests/main_test.py:13-15 | If the seed passes the envelope test and none of its other neighbours does, the seed is the only reachable cell. Longer sub-cells may pass too; they are never reached. |
| `CoverSearch.SingleCellCover` | tests/main_test.py:13-19 | Single-cell round trip. When the seed passes both tests and none of its other neighbours passes the envelope test, the search returns exactly that one cell. |
| `CoverSearch.InnerWalkIsTouchingWalk` | polygon_geohasher/polygon_geohasher.py:54-58 | If envelope containment implies intersection, every Inner-mode walk is a Touching-mode walk. |
| `CoverSearch.InnerCoverWithinTouchingCover` | polygon_geohasher/polygon_geohasher.py:54-70 | If containment implies intersection for both the envelope and the polygon, every cell of the Inner cover is in the Touching cover. |
| `CoverSearch.TouchingCoversInner` | tests/main_test.py:44-45 | If containment implies intersection for both the envelope and the polygon, and a finite set is closed from the seed under Touching-mode expansion, the Touching-mode search returns a superset of the Inner-mode search on the same polygon and seed. |

## Left out

- Shapely geometry (`envelope`, `centroid`, `contains`, `intersects`, `cascaded_union`): these are floating-point computational geometry from a foreign library. The four ring tests are uninterpreted parameters. Facts such as "containment implies intersection" are stated as hypotheses of the lemmas that need them.
- `geohashes_to_polygon`: it is only a geometric union of footprints, with nothing to state beyond the foreign call.
- pygeohash `encode`, `decode_exactly`, `get_adjacent` and the direction table: that library's base-32 arithmetic is not part of this model. Decoding and adjacency are parameters, so the model does not raise an invalid-geohash error. Every cell the search handles is generated internally.
- The seed's value and `precision`: the seed is an arbitrary cell standing for the encoded centroid at the given precision. `precision` has no other use in the search, so it is not a parameter.
- `queue.Queue` thread safety: the queue is used from one thread only, and is modelled as a sequence.
- Real-valued coordinates are `real`, not floating point. Rounding in the decoded offsets and corners is not modelled.
- The golden 42-cell set and the area comparisons in tests/main_test.py depend on real geometry and the external libraries. Only their abstract shape is modelled, in `SingleCellCover` and `TouchingCoversInner`.
- PolygonToGeohashes: termination is proved under the hypothesis that some finite set holds the seed and is closed under envelope-passing expansion. The envelope-passing cells of the seed's precision are such a set, since adjacency keeps the precision and the envelope has finite area; the model does not derive this from the codec.
