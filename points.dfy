/**
 * Grid points (src/point.rs; src/three.rs repeats the same definitions for
 * its own private `Point`, and both are modelled here once).
 */
module Points {
  import opened IntMath

  datatype Point = Point(x: int, y: int)

  /** `Ordering`, the result of Rust's `Ord::cmp`. */
  datatype Ordering = Less | Equal | Greater

  /** Manhattan distance from the origin. */
  function Dist(p: Point): (d: nat)
    ensures d == 0 <==> p == Point(0, 0)
    ensures d >= Abs(p.x) && d >= Abs(p.y)
  {
    Abs(p.x) + Abs(p.y)
  }

  /** The point above. */
  function Up(p: Point): Point { Point(p.x, p.y + 1) }

  function Down(p: Point): Point { Point(p.x, p.y - 1) }

  function Left(p: Point): Point { Point(p.x - 1, p.y) }

  function Right(p: Point): Point { Point(p.x + 1, p.y) }

  /** One step in the grid: exactly one coordinate changes, by one. */
  predicate Adjacent(p: Point, q: Point)
  {
    (p.x == q.x && Abs(p.y - q.y) == 1) || (p.y == q.y && Abs(p.x - q.x) == 1)
  }

  /** Each move goes to an adjacent point, and the four moves reach four
      different points. */
  lemma MovesAreSteps(p: Point)
    ensures Adjacent(p, Up(p)) && Adjacent(p, Down(p)) && Adjacent(p, Left(p)) && Adjacent(p, Right(p))
    ensures Up(p).x == p.x && Up(p).y == p.y + 1 && Down(p).x == p.x && Down(p).y == p.y - 1
    ensures Left(p).y == p.y && Left(p).x == p.x - 1 && Right(p).y == p.y && Right(p).x == p.x + 1
    ensures |{Up(p), Down(p), Left(p), Right(p)}| == 4
  {
    var s := {Up(p), Down(p), Left(p), Right(p)};
    assert |{Up(p), Down(p)}| == 2;
    assert |{Up(p), Down(p), Left(p)}| == 3;
  }

  /** The adjacent points of `p` are exactly its four moves. */
  lemma AdjacentIsMove(p: Point, q: Point)
    ensures Adjacent(p, q) <==> q in {Up(p), Down(p), Left(p), Right(p)}
  {
  }

  /** Opposite moves undo each other. */
  lemma MovesInverse(p: Point)
    ensures Down(Up(p)) == p && Up(Down(p)) == p
    ensures Right(Left(p)) == p && Left(Right(p)) == p
  {
  }

  /** A step changes the distance from the origin by exactly one. */
  lemma StepDist(p: Point, q: Point)
    requires Adjacent(p, q)
    ensures Dist(q) == Dist(p) + 1 || Dist(q) + 1 == Dist(p)
  {
  }

  /** `PartialEq for Point`: coordinatewise equality, which is the
      datatype's own equality. */
  function Eq(p: Point, q: Point): (r: bool)
    ensures r <==> p == q
  {
    p.x == q.x && p.y == q.y
  }

  /** `Ord for Point`: points compare by their distance alone. */
  function Cmp(p: Point, q: Point): (r: Ordering)
    ensures r == Less <==> Dist(p) < Dist(q)
    ensures r == Equal <==> Dist(p) == Dist(q)
    ensures r == Greater <==> Dist(p) > Dist(q)
  {
    if Dist(p) < Dist(q) then Less else if Dist(p) == Dist(q) then Equal else Greater
  }

  /** The order is not antisymmetric: distinct points at the same
      distance compare `Equal`. */
  lemma CmpNotAntisymmetric()
    ensures Point(1, 0) != Point(0, 1) && Cmp(Point(1, 0), Point(0, 1)) == Equal
  {
  }

  /** `Cmp` is a total preorder: reflexive, transitive and total. */
  lemma CmpPreorder(p: Point, q: Point, r: Point)
    ensures Cmp(p, p) == Equal
    ensures Cmp(p, q) != Greater && Cmp(q, r) != Greater ==> Cmp(p, r) != Greater
    ensures Cmp(p, q) == Greater <==> Cmp(q, p) == Less
  {
  }
}
