/**
 * Day 15 (src/fifteen.rs): the explored map of the maze, its bounding
 * box, and the Dijkstra-style relaxation that measures distances over the
 * open cells.  Step costs are all one, so a distance is a number of grid
 * moves; cells are keyed by `Point`, walls are marked `"#"`.
 */
module Fifteen {
  import opened Wrappers
  import opened Points

  /** `usize::max_value()`, the distance of a cell not reached yet. */
  const UsizeMax: nat := 0xFFFF_FFFF_FFFF_FFFF
  const Wall: string := "#"
  /** The message of the `expect` on the origin. */
  const OriginMissing: string := "0 0 isn't here!"

  /** The explored map and the oxygen system's cell, if one was found.
      The bounding box is only used for drawing and is kept apart. */
  datatype Space = Space(points: map<Point, string>, target: Option<Point>)

  // ---------------------------------------------------------------------
  // The bounding box

  class BoundingBox {
    var maxX: int
    var minX: int
    var maxY: int
    var minY: int

    /** The box `explore_space` starts from: the origin alone. */
    constructor ()
      ensures maxX == 0 && minX == 0 && maxY == 0 && minY == 0
      ensures Contains(Point(0, 0))
    {
      maxX, minX, maxY, minY := 0, 0, 0, 0;
    }

    predicate Contains(p: Point)
      reads this
    {
      minX <= p.x <= maxX && minY <= p.y <= maxY
    }

    /** Grow the box just enough to hold `p`: each bound moves only when
        `p` lies beyond it, so the box only widens, and a point already
        inside leaves it as it was. */
    method Expand(p: Point)
      modifies this
      ensures maxX == (if p.x > old(maxX) then p.x else old(maxX))
      ensures minX == (if p.x < old(minX) then p.x else old(minX))
      ensures maxY == (if p.y > old(maxY) then p.y else old(maxY))
      ensures minY == (if p.y < old(minY) then p.y else old(minY))
      ensures Contains(p)
      ensures forall q :: old(Contains(q)) ==> Contains(q)
      ensures old(Contains(p)) ==> maxX == old(maxX) && minX == old(minX) && maxY == old(maxY) && minY == old(minY)
    {
      if p.x > maxX {
        maxX := p.x;
      }
      if p.x < minX {
        minX := p.x;
      }
      if p.y > maxY {
        maxY := p.y;
      }
      if p.y < minY {
        minY := p.y;
      }
    }
  }

  // ---------------------------------------------------------------------
  // visit: relaxing the four neighbours

  /** The four directions in the order `visit` tries them. */
  function Neighbours(p: Point): seq<Point>
  {
    [Up(p), Left(p), Down(p), Right(p)]
  }

  /** What relaxing around `point`, at distance `pdist`, does to the
      table: every recorded neighbour that is further than `pdist` drops
      to `pdist + 1`; no key is added and nothing else changes. */
  function Relax(point: Point, pdist: nat, d: map<Point, nat>): (r: map<Point, nat>)
    ensures r.Keys == d.Keys
    ensures forall q :: q in r ==> r[q] <= d[q]
  {
    map q | q in d :: if Adjacent(point, q) && d[q] > pdist then pdist + 1 else d[q]
  }

  lemma NeighboursAdjacent(p: Point, q: Point)
    ensures q in Neighbours(p) <==> Adjacent(p, q)
  {
    AdjacentIsMove(p, q);
    assert q in Neighbours(p) <==> q in {Up(p), Down(p), Left(p), Right(p)};
  }

  /** `visit(point, pdist, distances)`. */
  method Visit(point: Point, pdist: nat, d: map<Point, nat>) returns (r: map<Point, nat>)
    ensures r == Relax(point, pdist, d)
  {
    r := d;
    for k := 0 to 4
      invariant r.Keys == d.Keys
      invariant forall q :: q in r ==> r[q] == if q in Neighbours(point)[..k] && d[q] > pdist then pdist + 1 else d[q]
    {
      var neighbour := Neighbours(point)[k];
      assert Neighbours(point)[..k + 1] == Neighbours(point)[..k] + [neighbour];
      if neighbour in r && r[neighbour] > pdist {
        r := r[neighbour := pdist + 1];
      }
    }
    assert Neighbours(point)[..4] == Neighbours(point);
    forall q | q in r
      ensures r[q] == Relax(point, pdist, d)[q]
    {
      NeighboursAdjacent(point, q);
    }
  }

  // ---------------------------------------------------------------------
  // next: the closest cell still to settle

  /** `order` lists the keys of `d` once each: how the table is iterated. */
  predicate Enumerates(order: seq<Point>, d: map<Point, nat>)
  {
    && (forall i :: 0 <= i < |order| ==> order[i] in d)
    && (forall k :: k in d ==> k in order)
    && (forall i, j :: 0 <= i < j < |order| ==> order[i] != order[j])
  }

  /** `distances.iter().collect()`: the keys in the table's own order,
      which the source leaves unspecified. */
  method Collect(d: map<Point, nat>) returns (order: seq<Point>)
    ensures Enumerates(order, d)
  {
    order := [];
    var rest := d.Keys;
    while rest != {}
      invariant rest <= d.Keys
      invariant forall i :: 0 <= i < |order| ==> order[i] in d && order[i] !in rest
      invariant forall k :: k in d ==> k in order || k in rest
      invariant forall i, j :: 0 <= i < j < |order| ==> order[i] != order[j]
      decreases |rest|
    {
      var k :| k in rest;
      order := order + [k];
      rest := rest - {k};
    }
  }

  /** The position of the last entry of `order` with the smallest
      distance.  Sorting by decreasing distance is stable, so the last
      element after the sort is exactly this one. */
  function LastClosest(d: map<Point, nat>, order: seq<Point>): (i: nat)
    requires order != [] && forall j :: 0 <= j < |order| ==> order[j] in d
    ensures i < |order|
    ensures forall j :: 0 <= j < |order| ==> d[order[i]] <= d[order[j]]
    ensures forall j :: i < j < |order| ==> d[order[i]] < d[order[j]]
  {
    if |order| == 1 then 0
    else
      var last := |order| - 1;
      var i := LastClosest(d, order[..last]);
      assert order[..last][i] == order[i];
      if d[order[last]] <= d[order[i]] then last else i
  }

  /** `next(distances)` for the iteration order `order`: a key of
      smallest distance, or `None` for an empty table. */
  function Next(d: map<Point, nat>, order: seq<Point>): (r: Option<Point>)
    requires Enumerates(order, d)
    ensures r.None? <==> d == map[]
    ensures r.Some? ==> r.value in d && forall k :: k in d ==> d[r.value] <= d[k]
  {
    if |order| > 0 then
      var i := LastClosest(d, order); Some(order[i])
    else
      assert forall k :: k !in d;
      None
  }

  // ---------------------------------------------------------------------
  // dikstras

  /** The cells that are not walls. */
  function Open(points: map<Point, string>): set<Point>
  {
    set p | p in points && points[p] != Wall
  }

  /** `visited[q] + 1 == v` for a settled neighbour `q` of `p`. */
  predicate Witness(visited: map<Point, nat>, q: Point, p: Point, v: nat)
  {
    q in visited && Adjacent(q, p) && visited[q] + 1 == v
  }

  /** A finite distance `v` for `p` is the origin's 0 or one more than
      the distance of a settled neighbour. */
  ghost predicate JustifiedAt(origin: Point, visited: map<Point, nat>, v: nat, p: Point)
  {
    v < UsizeMax ==> (p == origin && v == 0) || exists q :: Witness(visited, q, p, v)
  }

  /** Every distance in `m` is justified by `visited`. */
  ghost predicate Justified(origin: Point, visited: map<Point, nat>, m: map<Point, nat>)
  {
    forall p {:trigger JustifiedAt(origin, visited, m[p], p)} :: p in m ==> JustifiedAt(origin, visited, m[p], p)
  }

  predicate Bounded(m: map<Point, nat>)
  {
    forall p :: p in m ==> m[p] <= UsizeMax
  }

  /** There is a walk of `v` grid moves from `origin` to `p` through
      cells of `cells`. */
  ghost predicate PathTo(origin: Point, p: Point, v: nat, cells: set<Point>)
    decreases v
  {
    if v == 0 then p == origin
    else exists q :: q in cells && Adjacent(q, p) && PathTo(origin, q, v - 1, cells)
  }

  /** The tables of `dikstras` between iterations: the open cells are
      split between `distances` (still to settle) and `visited`, every
      distance is bounded and justified, and the origin, once settled,
      is at 0. */
  ghost predicate Partial(points: map<Point, string>, origin: Point,
                          distances: map<Point, nat>, visited: map<Point, nat>)
  {
    && distances.Keys !! visited.Keys
    && distances.Keys + visited.Keys == Open(points)
    && (origin in visited ==> visited[origin] == 0)
    && Bounded(distances) && Bounded(visited)
    && Justified(origin, visited, distances) && Justified(origin, visited, visited)
  }

  /** The state at the top of an iteration, about to settle `cur`; before
      the origin is settled, `cur` is the origin at 0. */
  ghost predicate Searching(points: map<Point, string>, origin: Point, cur: Point,
                            distances: map<Point, nat>, visited: map<Point, nat>)
  {
    && cur in distances
    && Partial(points, origin, distances, visited)
    && (origin !in visited ==> cur == origin && distances[origin] == 0)
  }

  /** What `dikstras` leaves behind: a distance for some of the open
      cells, 0 at the origin, each finite one the length of a walk from
      the origin. */
  ghost predicate Settled(points: map<Point, string>, origin: Point, visited: map<Point, nat>)
  {
    && visited.Keys <= Open(points)
    && origin in visited && visited[origin] == 0
    && Bounded(visited)
    && Justified(origin, visited, visited)
  }

  /** Settling one more cell keeps the old witnesses. */
  lemma JustifiedGrow(origin: Point, visited: map<Point, nat>, m: map<Point, nat>, k: Point, v: nat)
    requires Justified(origin, visited, m) && k !in visited
    ensures Justified(origin, visited[k := v], m)
  {
    var visited' := visited[k := v];
    forall p | p in m
      ensures JustifiedAt(origin, visited', m[p], p)
    {
      assert JustifiedAt(origin, visited, m[p], p);
      if m[p] < UsizeMax && !(p == origin && m[p] == 0) {
        var q :| Witness(visited, q, p, m[p]);
        assert Witness(visited', q, p, m[p]);
      }
    }
  }

  /** Recording a justified distance keeps the table justified. */
  lemma JustifiedAdd(origin: Point, visited: map<Point, nat>, m: map<Point, nat>, k: Point, v: nat)
    requires Justified(origin, visited, m) && JustifiedAt(origin, visited, v, k)
    ensures Justified(origin, visited, m[k := v])
  {
    var m' := m[k := v];
    forall p | p in m'
      ensures JustifiedAt(origin, visited, m'[p], p)
    {
      if p != k {
        assert JustifiedAt(origin, visited, m[p], p);
      }
    }
  }

  /** Relaxing around `cur`, once `cur` is settled at `pdist`, gives every
      lowered entry `cur` as its witness. */
  lemma JustifiedRelax(origin: Point, visited: map<Point, nat>, d: map<Point, nat>, cur: Point, pdist: nat)
    requires Justified(origin, visited, d) && cur in visited && visited[cur] == pdist
    ensures Justified(origin, visited, Relax(cur, pdist, d))
  {
    var r := Relax(cur, pdist, d);
    forall p | p in r
      ensures JustifiedAt(origin, visited, r[p], p)
    {
      if Adjacent(cur, p) && d[p] > pdist {
        assert Witness(visited, cur, p, r[p]);
      } else {
        assert JustifiedAt(origin, visited, d[p], p);
      }
    }
  }

  /** Removing entries keeps the rest justified. */
  lemma JustifiedRemove(origin: Point, visited: map<Point, nat>, m: map<Point, nat>, k: Point)
    requires Justified(origin, visited, m)
    ensures Justified(origin, visited, m - {k})
  {
    var m' := m - {k};
    forall p | p in m'
      ensures JustifiedAt(origin, visited, m'[p], p)
    {
      assert JustifiedAt(origin, visited, m[p], p);
    }
  }

  /** One iteration of the loop, up to the pick of the next cell. */
  lemma SearchStep(points: map<Point, string>, origin: Point, cur: Point,
                   distances: map<Point, nat>, visited: map<Point, nat>)
    requires Searching(points, origin, cur, distances, visited)
    ensures var pdist := distances[cur];
            var visited' := visited[cur := pdist];
            Partial(points, origin, Relax(cur, pdist, distances) - {cur}, visited') && origin in visited'
    ensures |(Relax(cur, distances[cur], distances) - {cur}).Keys| < |distances.Keys|
  {
    var pdist := distances[cur];
    StepJustified(origin, cur, distances, visited);
    StepShape(points, origin, cur, distances, visited, Relax(cur, pdist, distances));
  }

  /** Moving `cur` from one table to the other keeps the open cells split
      between them. */
  lemma StepShape(points: map<Point, string>, origin: Point, cur: Point,
                  distances: map<Point, nat>, visited: map<Point, nat>, relaxed: map<Point, nat>)
    requires cur in distances && distances.Keys !! visited.Keys && distances.Keys + visited.Keys == Open(points)
    requires (origin in visited ==> visited[origin] == 0) && (origin !in visited ==> cur == origin && distances[origin] == 0)
    requires Bounded(distances) && Bounded(visited)
    requires relaxed.Keys == distances.Keys && forall q :: q in relaxed ==> relaxed[q] <= distances[q]
    ensures var visited' := visited[cur := distances[cur]];
            var distances' := relaxed - {cur};
            && distances'.Keys !! visited'.Keys && distances'.Keys + visited'.Keys == Open(points)
            && origin in visited' && visited'[origin] == 0
            && Bounded(distances') && Bounded(visited')
            && |distances'.Keys| < |distances.Keys|
  {
    assert (relaxed - {cur}).Keys == distances.Keys - {cur};
  }

  /** Settling `cur` and relaxing around it keeps both tables justified. */
  lemma StepJustified(origin: Point, cur: Point, distances: map<Point, nat>, visited: map<Point, nat>)
    requires cur in distances && cur !in visited
    requires Justified(origin, visited, distances) && Justified(origin, visited, visited)
    ensures var visited' := visited[cur := distances[cur]];
            && Justified(origin, visited', Relax(cur, distances[cur], distances) - {cur})
            && Justified(origin, visited', visited')
  {
    var pdist := distances[cur];
    var visited' := visited[cur := pdist];
    var relaxed := Relax(cur, pdist, distances);
    JustifiedGrow(origin, visited, distances, cur, pdist);
    JustifiedGrow(origin, visited, visited, cur, pdist);
    assert JustifiedAt(origin, visited', distances[cur], cur);
    JustifiedAdd(origin, visited', visited, cur, pdist);
    JustifiedRelax(origin, visited', distances, cur, pdist);
    JustifiedRemove(origin, visited', relaxed, cur);
  }

  /** What `dikstras` promises: a settled table that covers every open
      cell when there is no target, and holds the target when it is an
      open cell. */
  ghost predicate Outcome(points: map<Point, string>, origin: Point, target: Option<Point>, m: map<Point, nat>)
  {
    && Settled(points, origin, m)
    && (target.None? ==> m.Keys == Open(points))
    && (target.Some? && target.value in Open(points) ==> target.value in m)
  }

  /** The tables before the first iteration. */
  lemma SearchStart(points: map<Point, string>, origin: Point, distances: map<Point, nat>)
    requires distances.Keys == Open(points) && origin in distances
    requires forall p :: p in distances ==> distances[p] == UsizeMax
    ensures Searching(points, origin, origin, distances[origin := 0], map[])
  {
    var d := distances[origin := 0];
    forall p | p in d
      ensures JustifiedAt(origin, map[], d[p], p)
    {
    }
  }

  /** The loop ends with nothing left to settle: every open cell is settled. */
  lemma SearchDone(points: map<Point, string>, origin: Point, target: Option<Point>, visited: map<Point, nat>)
    requires Partial(points, origin, map[], visited) && origin in visited
    ensures Outcome(points, origin, target, visited) && visited.Keys == Open(points)
  {
  }

  /** Settling the target where the loop stops keeps the result settled. */
  lemma SettleTarget(points: map<Point, string>, origin: Point,
                     distances: map<Point, nat>, visited: map<Point, nat>, t: Point)
    requires Partial(points, origin, distances, visited) && origin in visited && t in distances
    ensures Outcome(points, origin, Some(t), visited[t := distances[t]])
  {
    var visited' := visited[t := distances[t]];
    JustifiedGrow(origin, visited, distances, t, distances[t]);
    JustifiedGrow(origin, visited, visited, t, distances[t]);
    assert JustifiedAt(origin, visited', distances[t], t);
    JustifiedAdd(origin, visited', visited, t, distances[t]);
  }

  /** One iteration of the loop of `dikstras` up to the pick: relax
      around `cur`, settle it at its distance, and pick the next cell. */
  method SettleNext(points: map<Point, string>, origin: Point, cur: Point,
                    distances: map<Point, nat>, visited: map<Point, nat>)
    returns (distances': map<Point, nat>, visited': map<Point, nat>, n: Option<Point>)
    requires Searching(points, origin, cur, distances, visited)
    ensures visited' == visited[cur := distances[cur]]
    ensures distances' == Relax(cur, distances[cur], distances) - {cur}
    ensures Partial(points, origin, distances', visited') && origin in visited'
    ensures |distances'.Keys| < |distances.Keys|
    ensures n.None? <==> distances' == map[]
    ensures n.Some? ==> n.value in distances' && forall k :: k in distances' ==> distances'[n.value] <= distances'[k]
  {
    var pdist := distances[cur];
    SearchStep(points, origin, cur, distances, visited);
    distances' := Visit(cur, pdist, distances);
    visited' := visited[cur := pdist];
    distances' := distances' - {cur};
    var order := Collect(distances');
    n := Next(distances', order);
  }

  /** `dikstras(space, origin, target)`: settles cells in order of
      distance until none is left or the next one picked is `target`.
      Every open cell starts at `usize::MAX`, the origin at 0; an origin
      that is not an open cell is fatal. */
  method Dikstras(points: map<Point, string>, origin: Point, target: Option<Point>)
    returns (r: Result<map<Point, nat>>)
    ensures origin !in Open(points) ==> r == Err(OriginMissing)
    ensures origin in Open(points) ==> r.Ok? && Outcome(points, origin, target, r.value)
  {
    var distances: map<Point, nat> := map p | p in points && points[p] != Wall :: UsizeMax;
    assert distances.Keys == Open(points);
    if origin !in distances {
      return Err(OriginMissing);
    }
    SearchStart(points, origin, distances);
    distances := distances[origin := 0];
    var visited: map<Point, nat> := map[];
    var cur := origin;
    while true
      invariant Searching(points, origin, cur, distances, visited)
      decreases |distances.Keys|
    {
      var n;
      distances, visited, n := SettleNext(points, origin, cur, distances, visited);
      if n.None? {
        SearchDone(points, origin, target, visited);
        return Ok(visited);
      }
      if target.Some? && n.value == target.value {
        SettleTarget(points, origin, distances, visited, target.value);
        return Ok(visited[target.value := distances[target.value]]);
      }
      cur := n.value;
    }
  }

  /** Each finite settled distance is the length of a walk from the
      origin over settled cells. */
  lemma {:induction false} SettledPaths(origin: Point, visited: map<Point, nat>, p: Point)
    requires Justified(origin, visited, visited) && p in visited && visited[p] < UsizeMax
    ensures PathTo(origin, p, visited[p], visited.Keys)
    decreases visited[p]
  {
    assert JustifiedAt(origin, visited, visited[p], p);
    if !(p == origin && visited[p] == 0) {
      var q :| Witness(visited, q, p, visited[p]);
      SettledPaths(origin, visited, q);
      PathStep(origin, q, p, visited[q], visited.Keys);
    }
  }

  lemma PathStep(origin: Point, q: Point, p: Point, v: nat, cells: set<Point>)
    requires q in cells && Adjacent(q, p) && PathTo(origin, q, v, cells)
    ensures PathTo(origin, p, v + 1, cells)
  {
  }

  // ---------------------------------------------------------------------
  // the answers

  /** `fifteen_a`: the distance recorded for the oxygen system when the
      search starts from the origin.  A missing origin is fatal first,
      then a missing target, then a target with no recorded distance. */
  method FifteenA(space: Space) returns (r: Result<nat>)
    ensures Point(0, 0) !in Open(space.points) ==> r == Err(OriginMissing)
    ensures Point(0, 0) in Open(space.points) && space.target.None? ==> r == Err(UnwrapNone)
    ensures Point(0, 0) in Open(space.points) && space.target.Some? ==>
      (r.Ok? <==> space.target.value in Open(space.points))
    ensures r.Ok? && r.value < UsizeMax ==>
      space.target.Some? && PathTo(Point(0, 0), space.target.value, r.value, Open(space.points))
  {
    var origin := Point(0, 0);
    var distances :- Dikstras(space.points, origin, space.target);
    if space.target.None? {
      return Err(UnwrapNone);
    }
    var t := space.target.value;
    if t !in distances {
      return Err(UnwrapNone);
    }
    if distances[t] < UsizeMax {
      SettledPaths(origin, distances, t);
      PathWiden(origin, t, distances[t], distances.Keys, Open(space.points));
    }
    return Ok(distances[t]);
  }

  lemma {:induction false} PathWiden(origin: Point, p: Point, v: nat, cells: set<Point>, more: set<Point>)
    requires PathTo(origin, p, v, cells) && cells <= more
    ensures PathTo(origin, p, v, more)
    decreases v
  {
    if v > 0 {
      var q :| q in cells && Adjacent(q, p) && PathTo(origin, q, v - 1, cells);
      PathWiden(origin, q, v - 1, cells, more);
    }
  }

  /** The largest distance in a non-empty table, as the descending sort
      of `fifteen_b` puts first. */
  method Farthest(d: map<Point, nat>) returns (v: nat)
    requires d != map[]
    ensures exists p :: p in d && d[p] == v
    ensures forall p :: p in d ==> d[p] <= v
  {
    var order := Collect(d);
    assert order != [] by {
      var k :| k in d;
    }
    v := d[order[0]];
    for i := 1 to |order|
      invariant exists p :: p in d && d[p] == v
      invariant forall j :: 0 <= j < i ==> d[order[j]] <= v
    {
      if d[order[i]] > v {
        v := d[order[i]];
      }
    }
  }

  /** `fifteen_b`: the largest distance from the oxygen system to any
      cell.  The target must have been found and must be an open cell. */
  method FifteenB(space: Space) returns (r: Result<nat>)
    ensures space.target.None? ==> r == Err(UnwrapNone)
    ensures space.target.Some? && space.target.value !in Open(space.points) ==> r == Err(OriginMissing)
    ensures space.target.Some? && space.target.value in Open(space.points) ==>
      r.Ok? && exists m :: FarthestIn(space.points, space.target.value, m, r.value)
  {
    if space.target.None? {
      return Err(UnwrapNone);
    }
    var distances :- Dikstras(space.points, space.target.value, None);
    var v := Farthest(distances);
    assert FarthestIn(space.points, space.target.value, distances, v);
    return Ok(v);
  }

  /** `m` settles every open cell from `origin`, and `v` is the largest
      distance in it. */
  ghost predicate FarthestIn(points: map<Point, string>, origin: Point, m: map<Point, nat>, v: nat)
  {
    && Settled(points, origin, m) && m.Keys == Open(points)
    && (exists p :: p in m && m[p] == v)
    && (forall p :: p in m ==> m[p] <= v)
  }
}
