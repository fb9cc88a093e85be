/**
 The cell-cover search (polygon_to_geohashes): a breadth-first flood fill
 over the geohash grid, starting from the cell of the polygon's centroid.

 Each popped cell that is not yet classified is screened by the envelope
 test; a cell that passes is classified into `inner` or `outer` by the
 polygon test and its unclassified neighbours are queued. At the end,
 the classified cells are exactly those reachable from the seed by walks
 through envelope-passing cells, and `inner` holds those of them that pass
 the polygon test.
 */
module CoverSearch {
  import opened Footprint
  import opened Grid

  /** The search's working state: the two visited sets and the FIFO frontier. */
  datatype State = State(inner: set<Geohash>, outer: set<Geohash>, queue: seq<Geohash>)

  function Classified(st: State): set<Geohash>
  {
    st.inner + st.outer
  }

  /** The elements of `ns` that are not in `done`, in their order in `ns`. */
  function Unclassified(ns: seq<Geohash>, done: set<Geohash>): (r: seq<Geohash>)
    ensures forall n :: n in r <==> n in ns && n !in done
    ensures |r| <= |ns|
    decreases |ns|
  {
    if ns == [] then []
    else
      var init, last := ns[..|ns| - 1], ns[|ns| - 1];
      assert ns == init + [last];
      Unclassified(init, done) + (if last in done then [] else [last])
  }

  lemma UnclassifiedSnoc(s: seq<Geohash>, x: Geohash, done: set<Geohash>)
    ensures Unclassified(s + [x], done) == Unclassified(s, done) + (if x in done then [] else [x])
  {
    assert (s + [x])[..|s + [x]| - 1] == s;
  }

  /** When no element of `ns` is classified, filtering returns `ns` unchanged. */
  lemma {:induction false} UnclassifiedKeepsAll(ns: seq<Geohash>, done: set<Geohash>)
    requires forall n :: n in ns ==> n !in done
    ensures Unclassified(ns, done) == ns
    decreases |ns|
  {
    if ns != [] {
      var init, last := ns[..|ns| - 1], ns[|ns| - 1];
      assert ns == init + [last];
      UnclassifiedKeepsAll(init, done);
    }
  }

  /** Filtering distributes over concatenation, so it keeps the relative order of what it keeps. */
  lemma {:induction false} UnclassifiedAppend(a: seq<Geohash>, b: seq<Geohash>, done: set<Geohash>)
    ensures Unclassified(a + b, done) == Unclassified(a, done) + Unclassified(b, done)
    decreases |b|
  {
    if b == [] {
      assert a + b == a;
    } else {
      var init, last := b[..|b| - 1], b[|b| - 1];
      var kept := if last in done then [] else [last];
      calc {
        Unclassified(a + b, done);
        { assert a + b == (a + init) + [last]; UnclassifiedSnoc(a + init, last, done); }
        Unclassified(a + init, done) + kept;
        { UnclassifiedAppend(a, init, done); }
        Unclassified(a, done) + Unclassified(init, done) + kept;
        { assert b == init + [last]; UnclassifiedSnoc(init, last, done); }
        Unclassified(a, done) + Unclassified(b, done);
      }
    }
  }

  /** One iteration of the loop: pop the oldest frontier cell and handle it. */
  function Visit(p: Primitives, mode: Mode, st: State): (r: State)
    requires st.queue != []
    // both sets only grow, and by at most the popped cell
    ensures st.inner <= r.inner && st.outer <= r.outer
    ensures Classified(r) <= Classified(st) + {st.queue[0]}
    // a cell already classified is not re-tested, re-classified or re-expanded
    ensures st.queue[0] in Classified(st) ==> r == State(st.inner, st.outer, st.queue[1..])
    // a cell failing the envelope test changes neither set and queues nothing
    ensures !EnvOk(p, mode, st.queue[0]) ==> r == State(st.inner, st.outer, st.queue[1..])
    // otherwise it is classified by the polygon test
    ensures st.queue[0] !in Classified(st) && EnvOk(p, mode, st.queue[0]) ==>
      && Classified(r) == Classified(st) + {st.queue[0]}
      && (st.queue[0] in r.inner <==> PolyOk(p, mode, st.queue[0]))
      && (st.queue[0] in r.outer <==> !PolyOk(p, mode, st.queue[0]))
    // disjointness is kept
    ensures st.inner !! st.outer ==> r.inner !! r.outer
    // the rest of the frontier stays ahead, in order, of what is queued now
    ensures |r.queue| >= |st.queue| - 1 && r.queue[..|st.queue| - 1] == st.queue[1..]
    // what is queued is exactly the unclassified neighbours of a newly classified cell
    ensures forall n :: n in r.queue[|st.queue| - 1..] <==>
      && st.queue[0] !in Classified(st) && EnvOk(p, mode, st.queue[0])
      && n in Neighbors(p, st.queue[0]) && n !in Classified(r)
  {
    var c, rest := st.queue[0], st.queue[1..];
    if c in st.inner || c in st.outer || !EnvOk(p, mode, c) then
      assert rest + [] == rest;
      State(st.inner, st.outer, rest)
    else
      var next := if PolyOk(p, mode, c) then State(st.inner + {c}, st.outer, rest)
                  else State(st.inner, st.outer + {c}, rest);
      var queued := Unclassified(Neighbors(p, c), Classified(next));
      assert (rest + queued)[..|rest|] == rest && (rest + queued)[|rest|..] == queued;
      State(next.inner, next.outer, rest + queued)
  }

  /** A walk from the seed through envelope-passing cells, each step to a neighbour. */
  ghost predicate IsWalk(p: Primitives, mode: Mode, seed: Geohash, w: seq<Geohash>)
  {
    && |w| > 0 && w[0] == seed
    && (forall i :: 0 <= i < |w| ==> EnvOk(p, mode, w[i]))
    && (forall i :: 0 <= i < |w| - 1 ==> w[i + 1] in Neighbors(p, w[i]))
  }

  /** `c` is reached by the flood fill from `seed`. */
  ghost predicate Reachable(p: Primitives, mode: Mode, seed: Geohash, c: Geohash)
  {
    exists w :: IsWalk(p, mode, seed, w) && w[|w| - 1] == c
  }

  lemma ReachableSeed(p: Primitives, mode: Mode, seed: Geohash)
    requires EnvOk(p, mode, seed)
    ensures Reachable(p, mode, seed, seed)
  {
    assert IsWalk(p, mode, seed, [seed]);
  }

  lemma ReachableStep(p: Primitives, mode: Mode, seed: Geohash, c: Geohash, n: Geohash)
    requires Reachable(p, mode, seed, c)
    requires n in Neighbors(p, c) && EnvOk(p, mode, n)
    ensures Reachable(p, mode, seed, n)
  {
    var w :| IsWalk(p, mode, seed, w) && w[|w| - 1] == c;
    var w' := w + [n];
    assert forall i :: 0 <= i < |w| ==> w'[i] == w[i];
    assert IsWalk(p, mode, seed, w');
  }

  lemma ReachablePassesEnvelope(p: Primitives, mode: Mode, seed: Geohash, c: Geohash)
    requires Reachable(p, mode, seed, c)
    ensures EnvOk(p, mode, c)
  {
    var w :| IsWalk(p, mode, seed, w) && w[|w| - 1] == c;
    assert EnvOk(p, mode, w[|w| - 1]);
  }

  /** `s` contains the seed unless it fails the envelope, and is closed under expansion. */
  ghost predicate ClosedFrom(p: Primitives, mode: Mode, seed: Geohash, s: set<Geohash>)
  {
    && (EnvOk(p, mode, seed) ==> seed in s)
    && (forall c, n :: c in s && n in Neighbors(p, c) && EnvOk(p, mode, n) ==> n in s)
  }

  lemma {:induction false} WalkWithin(p: Primitives, mode: Mode, seed: Geohash, s: set<Geohash>, w: seq<Geohash>)
    requires ClosedFrom(p, mode, seed, s) && IsWalk(p, mode, seed, w)
    ensures w[|w| - 1] in s
    decreases |w|
  {
    if |w| > 1 {
      var w' := w[..|w| - 1];
      assert IsWalk(p, mode, seed, w') by {
        assert forall i :: 0 <= i < |w'| ==> w'[i] == w[i];
      }
      WalkWithin(p, mode, seed, s, w');
      assert w[|w| - 1] in Neighbors(p, w[|w| - 2]);
    }
  }

  /** The reachable cells form the least set that is closed from the seed. */
  lemma ReachableIsLeastClosed(p: Primitives, mode: Mode, seed: Geohash, s: set<Geohash>)
    requires ClosedFrom(p, mode, seed, s)
    ensures forall c :: Reachable(p, mode, seed, c) ==> c in s
  {
    forall c | Reachable(p, mode, seed, c) ensures c in s {
      var w :| IsWalk(p, mode, seed, w) && w[|w| - 1] == c;
      WalkWithin(p, mode, seed, s, w);
    }
  }

  /** Every inner cell passed both tests; every outer cell passed the envelope and failed the polygon. */
  ghost predicate Sound(p: Primitives, mode: Mode, st: State)
  {
    && st.inner !! st.outer
    && (forall c :: c in st.inner ==> EnvOk(p, mode, c) && PolyOk(p, mode, c))
    && (forall c :: c in st.outer ==> EnvOk(p, mode, c) && !PolyOk(p, mode, c))
  }

  /** Every classified cell, and every envelope-passing queued cell, is reachable. */
  ghost predicate Traced(p: Primitives, mode: Mode, seed: Geohash, st: State)
  {
    && (forall c :: c in Classified(st) ==> Reachable(p, mode, seed, c))
    && (forall i :: 0 <= i < |st.queue| && EnvOk(p, mode, st.queue[i]) ==> Reachable(p, mode, seed, st.queue[i]))
  }

  /** Closure modulo the frontier: what is still missing is waiting in the queue. */
  ghost predicate Frontier(p: Primitives, mode: Mode, seed: Geohash, st: State)
  {
    && (seed in Classified(st) || seed in st.queue || !EnvOk(p, mode, seed))
    && (forall c, n :: c in Classified(st) && n in Neighbors(p, c) ==>
          n in Classified(st) || n in st.queue || !EnvOk(p, mode, n))
  }

  ghost predicate Inv(p: Primitives, mode: Mode, seed: Geohash, st: State)
  {
    Sound(p, mode, st) && Traced(p, mode, seed, st) && Frontier(p, mode, seed, st)
  }

  lemma InitialInv(p: Primitives, mode: Mode, seed: Geohash)
    ensures Inv(p, mode, seed, State({}, {}, [seed]))
  {
    if EnvOk(p, mode, seed) {
      ReachableSeed(p, mode, seed);
    }
  }

  lemma VisitKeepsSound(p: Primitives, mode: Mode, st: State)
    requires st.queue != [] && Sound(p, mode, st)
    ensures Sound(p, mode, Visit(p, mode, st))
  {
  }

  lemma VisitKeepsTraced(p: Primitives, mode: Mode, seed: Geohash, st: State)
    requires st.queue != [] && Traced(p, mode, seed, st)
    ensures Traced(p, mode, seed, Visit(p, mode, st))
  {
    var r := Visit(p, mode, st);
    var c := st.queue[0];
    var k := |st.queue| - 1;
    forall i | 0 <= i < |r.queue| && EnvOk(p, mode, r.queue[i])
      ensures Reachable(p, mode, seed, r.queue[i])
    {
      if i < k {
        assert r.queue[i] == r.queue[..k][i] == st.queue[i + 1];
      } else {
        assert r.queue[i] == r.queue[k..][i - k];
        ReachableStep(p, mode, seed, c, r.queue[i]);
      }
    }
  }

  lemma VisitKeepsFrontier(p: Primitives, mode: Mode, seed: Geohash, st: State)
    requires st.queue != [] && Frontier(p, mode, seed, st)
    ensures Frontier(p, mode, seed, Visit(p, mode, st))
  {
    var r := Visit(p, mode, st);
    var c := st.queue[0];
    var k := |st.queue| - 1;
    assert forall n :: n in st.queue ==> n == c || n in r.queue by {
      forall n | n in st.queue ensures n == c || n in r.queue {
        if n != c {
          var j :| 0 <= j < |st.queue| && st.queue[j] == n;
          assert r.queue[..k][j - 1] == n;
        }
      }
    }
    assert c in Classified(r) || !EnvOk(p, mode, c);
    forall c0, n | c0 in Classified(r) && n in Neighbors(p, c0)
      ensures n in Classified(r) || n in r.queue || !EnvOk(p, mode, n)
    {
      if c0 !in Classified(st) {
        if n !in Classified(r) {
          assert n in r.queue[k..];
        }
      }
    }
  }

  lemma VisitPreservesInv(p: Primitives, mode: Mode, seed: Geohash, st: State)
    requires st.queue != [] && Inv(p, mode, seed, st)
    ensures Inv(p, mode, seed, Visit(p, mode, st))
  {
    VisitKeepsSound(p, mode, st);
    VisitKeepsTraced(p, mode, seed, st);
    VisitKeepsFrontier(p, mode, seed, st);
  }

  /** Once the frontier is drained, the visited sets are the reachable cells split by the polygon test. */
  lemma DrainedCover(p: Primitives, mode: Mode, seed: Geohash, st: State)
    requires Inv(p, mode, seed, st) && st.queue == []
    ensures forall c :: c in st.inner <==> Reachable(p, mode, seed, c) && PolyOk(p, mode, c)
    ensures forall c :: c in st.outer <==> Reachable(p, mode, seed, c) && !PolyOk(p, mode, c)
  {
    ReachableIsLeastClosed(p, mode, seed, Classified(st));
  }

  lemma ClassifyShrinks(universe: set<Geohash>, done: set<Geohash>, c: Geohash)
    requires c in universe && c !in done
    ensures |universe - (done + {c})| < |universe - done|
  {
    assert universe - done == (universe - (done + {c})) + {c};
  }

  /** Appends to `queue`, in order, each of `neighbors` found in neither visited set. */
  method EnqueueUnclassified(queue: seq<Geohash>, neighbors: seq<Geohash>, inner: set<Geohash>, outer: set<Geohash>)
    returns (queue': seq<Geohash>)
    ensures queue' == queue + Unclassified(neighbors, inner + outer)
  {
    queue' := queue;
    for i := 0 to |neighbors|
      invariant queue' == queue + Unclassified(neighbors[..i], inner + outer)
    {
      assert neighbors[..i + 1] == neighbors[..i] + [neighbors[i]];
      if neighbors[i] !in inner && neighbors[i] !in outer {
        queue' := queue' + [neighbors[i]];
      }
    }
    assert neighbors[..|neighbors|] == neighbors;
  }

  /**
   The flood fill. `seed` is the cell of the polygon's centroid; `universe`
   is a finite set that holds the seed (if it passes the envelope test) and
   every envelope-passing neighbour of its members, such as the cells of
   the seed's precision that pass the envelope test; it bounds the search.
   */
  method PolygonToGeohashes(p: Primitives, mode: Mode, seed: Geohash, ghost universe: set<Geohash>)
    returns (inner: set<Geohash>, ghost outer: set<Geohash>)
    requires ClosedFrom(p, mode, seed, universe)
    ensures inner !! outer
    ensures forall c :: c in inner ==> EnvOk(p, mode, c) && PolyOk(p, mode, c)
    ensures forall c :: c in outer ==> EnvOk(p, mode, c) && !PolyOk(p, mode, c)
    ensures forall c :: c in inner <==> Reachable(p, mode, seed, c) && PolyOk(p, mode, c)
    ensures forall c :: c in outer <==> Reachable(p, mode, seed, c) && !PolyOk(p, mode, c)
    ensures forall c, n :: c in inner + outer && n in Neighbors(p, c) ==> n in inner + outer || !EnvOk(p, mode, n)
  {
    inner := {};
    var outerCells: set<Geohash> := {};
    var queue := [seed];
    InitialInv(p, mode, seed);
    ReachableIsLeastClosed(p, mode, seed, universe);
    while queue != []
      invariant Inv(p, mode, seed, State(inner, outerCells, queue))
      invariant inner + outerCells <= universe
      decreases |universe - (inner + outerCells)|, |queue|
    {
      ghost var before := State(inner, outerCells, queue);
      var current := queue[0];
      queue := queue[1..];
      if current !in inner && current !in outerCells {
        var footprint := CellPolygon(p, current);
        var condition := if mode.Inner? then p.envelopeContains(footprint) else p.envelopeIntersects(footprint);
        if condition {
          if mode.Inner? {
            if p.polygonContains(footprint) {
              inner := inner + {current};
            } else {
              outerCells := outerCells + {current};
            }
          } else {
            if p.polygonIntersects(footprint) {
              inner := inner + {current};
            } else {
              outerCells := outerCells + {current};
            }
          }
          queue := EnqueueUnclassified(queue, Neighbors(p, current), inner, outerCells);
          assert Reachable(p, mode, seed, before.queue[0]);
          ClassifyShrinks(universe, Classified(before), current);
        }
      }
      assert State(inner, outerCells, queue) == Visit(p, mode, before);
      VisitPreservesInv(p, mode, seed, before);
    }
    outer := outerCells;
    DrainedCover(p, mode, seed, State(inner, outerCells, queue));
  }

  /**
   When the seed passes the envelope test and none of its other neighbours
   does, the seed is the only reachable cell.
   */
  lemma OnlySeedReachable(p: Primitives, mode: Mode, seed: Geohash)
    requires EnvOk(p, mode, seed)
    requires forall n :: n in Neighbors(p, seed) && n != seed ==> !EnvOk(p, mode, n)
    ensures forall c :: Reachable(p, mode, seed, c) <==> c == seed
  {
    ReachableSeed(p, mode, seed);
    ReachableIsLeastClosed(p, mode, seed, {seed});
  }

  /**
   The single-cell round trip: searching the footprint of one cell, where
   that cell passes the envelope test, none of its other neighbours does,
   and it passes the polygon test, yields exactly that cell.
   */
  method SingleCellCover(p: Primitives, mode: Mode, seed: Geohash) returns (cover: set<Geohash>)
    requires EnvOk(p, mode, seed)
    requires forall n :: n in Neighbors(p, seed) && n != seed ==> !EnvOk(p, mode, n)
    requires PolyOk(p, mode, seed)
    ensures cover == {seed}
  {
    OnlySeedReachable(p, mode, seed);
    ghost var rejected;
    cover, rejected := PolygonToGeohashes(p, mode, seed, {seed});
  }

  /** A walk through cells that contain-pass the envelope is a walk through cells that intersect it. */
  lemma InnerWalkIsTouchingWalk(p: Primitives, seed: Geohash, w: seq<Geohash>)
    requires forall r: Ring :: p.envelopeContains(r) ==> p.envelopeIntersects(r)
    requires IsWalk(p, Inner, seed, w)
    ensures IsWalk(p, Touching, seed, w)
  {
    forall i | 0 <= i < |w| ensures EnvOk(p, Touching, w[i]) {
      assert EnvOk(p, Inner, w[i]);
    }
  }

  /**
   When containment implies intersection for both the envelope and the
   polygon, every cell of the Inner cover is in the Touching cover.
   */
  lemma InnerCoverWithinTouchingCover(p: Primitives, seed: Geohash)
    requires forall r: Ring :: p.envelopeContains(r) ==> p.envelopeIntersects(r)
    requires forall r: Ring :: p.polygonContains(r) ==> p.polygonIntersects(r)
    ensures forall c :: Reachable(p, Inner, seed, c) && PolyOk(p, Inner, c) ==>
      Reachable(p, Touching, seed, c) && PolyOk(p, Touching, c)
  {
    forall c | Reachable(p, Inner, seed, c) && PolyOk(p, Inner, c)
      ensures Reachable(p, Touching, seed, c) && PolyOk(p, Touching, c)
    {
      var w :| IsWalk(p, Inner, seed, w) && w[|w| - 1] == c;
      InnerWalkIsTouchingWalk(p, seed, w);
    }
  }

  /** The Touching-mode search returns a superset of the Inner-mode search on the same polygon. */
  method TouchingCoversInner(p: Primitives, seed: Geohash, ghost universe: set<Geohash>)
    returns (innerCover: set<Geohash>, touchingCover: set<Geohash>)
    requires forall r: Ring :: p.envelopeContains(r) ==> p.envelopeIntersects(r)
    requires forall r: Ring :: p.polygonContains(r) ==> p.polygonIntersects(r)
    requires ClosedFrom(p, Touching, seed, universe)
    ensures innerCover <= touchingCover
  {
    assert ClosedFrom(p, Inner, seed, universe) by {
      forall c, n | c in universe && n in Neighbors(p, c) && EnvOk(p, Inner, n) ensures n in universe {
        assert EnvOk(p, Touching, n);
      }
      assert EnvOk(p, Inner, seed) ==> EnvOk(p, Touching, seed);
    }
    ghost var rejected;
    innerCover, rejected := PolygonToGeohashes(p, Inner, seed, universe);
    touchingCover, rejected := PolygonToGeohashes(p, Touching, seed, universe);
    InnerCoverWithinTouchingCover(p, seed);
  }
}
