/**
 * Day 12 (src/twelve.rs): moons that pull on each other along three axes.
 *
 * A step applies `gravity` (every pair of bodies pulls their velocities
 * one unit towards each other on every axis where their positions differ)
 * and then `velocity` (every position moves by its velocity).  Part one
 * sums the bodies' energies after a number of steps.  Part two finds,
 * for each axis separately, the first step at which that axis's positions
 * and velocities return to their initial values, and multiplies the
 * highest prime powers of those periods: their least common multiple.
 */
module Twelve {
  import opened Wrappers
  import opened IntMath
  import opened Text
  import Ten

  // ---------------------------------------------------------------------
  // Bodies and three-component vectors (`Body`, twelve.rs:4-8)
  // ---------------------------------------------------------------------

  /** A value per axis: index 0 is x, 1 is y, 2 is z. */
  type Vec3 = s: seq<int> | |s| == 3 witness [0, 0, 0]

  datatype Body = Body(pos: Vec3, vel: Vec3)

  const Zero: Vec3 := [0, 0, 0]

  function Add(u: Vec3, v: Vec3): Vec3
  {
    [u[0] + v[0], u[1] + v[1], u[2] + v[2]]
  }

  lemma AddZero(v: Vec3)
    ensures Add(v, Zero) == v
  {
  }

  /** Regrouping a sum of four vectors. */
  lemma AddSwap(a: Vec3, b: Vec3, c: Vec3, d: Vec3)
    ensures Add(Add(a, b), Add(c, d)) == Add(Add(a, c), Add(b, d))
  {
  }

  function Neg(v: Vec3): Vec3
  {
    [-v[0], -v[1], -v[2]]
  }

  /** The change of velocity, on one axis, of a body at `a` pulled by a
      body at `b`: one unit towards it, nothing when they are level. */
  function Pull(a: int, b: int): int
  {
    if a < b then 1 else if a > b then -1 else 0
  }

  /** `Pull` on every axis at once. */
  function PullVec(a: Vec3, b: Vec3): Vec3
  {
    [Pull(a[0], b[0]), Pull(a[1], b[1]), Pull(a[2], b[2])]
  }

  lemma PullOpposite(a: Vec3, b: Vec3)
    ensures PullVec(b, a) == Neg(PullVec(a, b))
    ensures PullVec(a, a) == Zero
  {
  }

  // ---------------------------------------------------------------------
  // `read_locations` (twelve.rs:80-112)
  // ---------------------------------------------------------------------

  /** The panic of `assert_eq!(axes.len(), 3)`. */
  const AxesCount: string := "assertion `left == right` failed"
  /** The `expect` message for a magnitude that is not an `i32`. */
  const BadMagnitude: string := "failed parsing magnitude"
  const UnknownAxis: string := "unknown axis"

  /** `v` with component `i` replaced by `x`. */
  function SetAt(v: Vec3, i: nat, x: int): Vec3
    requires i < 3
  {
    v[i := x]
  }

  /** The axis a name selects. */
  function AxisIndex(name: string): (r: Option<nat>)
    ensures r.Some? ==> r.value < 3
  {
    if name == "x" then Some(0)
    else if name == "y" then Some(1)
    else if name == "z" then Some(2)
    else None
  }

  /** One "name=magnitude" item applied to the position read so far.  The
      item is split at its first `=`; a missing `=` fails at the index
      `k_v[1]`, before the name is looked at, and a magnitude is parsed
      only for a known name. */
  function SetAxis(pos: Vec3, item: string): Result<Vec3>
  {
    var kv := SplitOnce(item, "=");
    if |kv| < 2 then Err(IndexOutOfBounds)
    else
      match AxisIndex(Trim(kv[0]))
      case None => Err(UnknownAxis)
      case Some(i) =>
        match ParseI32(Trim(kv[1]))
        case None => Err(BadMagnitude)
        case Some(v) => Ok(SetAt(pos, i, v))
  }

  /** The items applied in turn; the first failure is fatal. */
  function SetAxes(pos: Vec3, items: seq<string>): Result<Vec3>
  {
    Fold(pos, items, SetAxis)
  }

  predicate IsAngle(c: char)
  {
    c == '<' || c == '>'
  }

  /** The body a line "<x=X, y=Y, z=Z>" describes, at rest. */
  function BodyOfLine(line: string): Result<Body>
  {
    var axes := Split(TrimBy(line, IsAngle), ",");
    if |axes| != 3 then Err(AxesCount)
    else
      var pos :- SetAxes(Zero, axes);
      Ok(Body(pos, Zero))
  }

  /** The bodies the lines describe, one per line. */
  function Locations(lines: seq<string>): Result<seq<Body>>
  {
    ParseEach(lines, BodyOfLine)
  }

  /** The body of `read_locations`' loop: the items of one line. */
  method ReadBody(line: string) returns (r: Result<Body>)
    ensures r == BodyOfLine(line)
  {
    var axes := Split(TrimBy(line, IsAngle), ",");
    if |axes| != 3 {
      return Err(AxesCount);
    }
    var pos: Vec3 := Zero;
    for k := 0 to |axes|
      invariant SetAxes(Zero, axes[..k]) == Ok(pos)
    {
      FoldStep(Zero, axes, SetAxis, k, pos);
      var kv := SplitOnce(axes[k], "=");
      if |kv| < 2 {
        FoldFirstFailure(Zero, axes, SetAxis, k, |axes|, pos);
        assert axes[..|axes|] == axes;
        return Err(IndexOutOfBounds);
      }
      var axis := Trim(kv[0]);
      var magnitude := Trim(kv[1]);
      var i := AxisIndex(axis);
      if i.None? {
        FoldFirstFailure(Zero, axes, SetAxis, k, |axes|, pos);
        assert axes[..|axes|] == axes;
        return Err(UnknownAxis);
      }
      var v := ParseI32(magnitude);
      if v.None? {
        FoldFirstFailure(Zero, axes, SetAxis, k, |axes|, pos);
        assert axes[..|axes|] == axes;
        return Err(BadMagnitude);
      }
      pos := SetAt(pos, i.value, v.value);
    }
    assert axes[..|axes|] == axes;
    return Ok(Body(pos, Zero));
  }

  /** `read_locations`: one body per line, in order. */
  method ReadLocations(lines: seq<string>) returns (r: Result<seq<Body>>)
    ensures r == Locations(lines)
  {
    var bodies: seq<Body> := [];
    for k := 0 to |lines|
      invariant ParseEach(lines[..k], BodyOfLine) == Ok(bodies)
    {
      var b := ReadBody(lines[k]);
      if !b.Ok? {
        ParseEachFirstFailure(lines, BodyOfLine, k, |lines|);
        assert lines[..|lines|] == lines;
        return b.PropagateFailure();
      }
      ParseEachStep(lines, BodyOfLine, k, bodies);
      bodies := bodies + [b.value];
    }
    assert lines[..|lines|] == lines;
    return Ok(bodies);
  }

  /** The lines are read exactly when every one of them is, and then there
      is one body per line, that line's, at rest. */
  lemma LocationsSpec(lines: seq<string>)
    ensures Locations(lines).Ok? <==> forall k :: 0 <= k < |lines| ==> BodyOfLine(lines[k]).Ok?
    ensures Locations(lines).Ok? ==> (|Locations(lines).value| == |lines|
      && forall k :: 0 <= k < |lines| ==>
        Locations(lines).value[k] == BodyOfLine(lines[k]).value && Locations(lines).value[k].vel == Zero)
  {
    ParseEachSpec(lines, BodyOfLine);
  }

  /** The line the puzzle input shows for a body at `pos`. */
  function ShowBody(pos: Vec3): string
  {
    "<" + Join([ShowItem("x", pos[0]), ShowItem(" y", pos[1]), ShowItem(" z", pos[2])], ",") + ">"
  }

  /** One item "key=magnitude" of a shown body. */
  function ShowItem(key: string, v: int): string
  {
    key + "=" + ShowInt(v)
  }

  /** An item "key=magnitude" for a key without `=`. */
  lemma SetAxisShown(pos: Vec3, key: string, i: nat, v: int)
    requires '=' !in key && AxisIndex(Trim(key)) == Some(i) && I32Min <= v <= I32Max
    ensures SetAxis(pos, ShowItem(key, v)) == Ok(SetAt(pos, i, v))
  {
    var sv := ShowInt(v);
    var item := key + "=" + sv;
    assert item == key + ['='] + sv;
    FirstOccurrence(key, '=', sv);
    assert item[..|key|] == key && item[|key| + 1..] == sv;
    ShowIntChars(v);
    TrimByUnchanged(sv, IsWhitespace);
    ParseShowI32(v);
    var kv := SplitOnce(item, "=");
    assert kv == [key, sv];
    assert ParseI32(Trim(kv[1])) == Some(v);
  }

  /** The three items of a shown body. */
  function ShownItems(pos: Vec3): seq<string>
  {
    [ShowItem("x", pos[0]), ShowItem(" y", pos[1]), ShowItem(" z", pos[2])]
  }

  lemma ShowBodyForm(pos: Vec3)
    ensures ShowBody(pos) == ['<'] + Join(ShownItems(pos), ",") + ['>']
    ensures Join(ShownItems(pos), ",") == ShownItems(pos)[0] + "," + ShownItems(pos)[1] + "," + ShownItems(pos)[2]
  {
    var items := ShownItems(pos);
    assert items[1..][1..] == [items[2]];
    assert Join(items[1..], ",") == items[1] + "," + items[2];
  }

  /** Stripping the angle brackets and splitting at the commas gives the
      items back. */
  lemma SplitShown(pos: Vec3)
    ensures Split(TrimBy(ShowBody(pos), IsAngle), ",") == ShownItems(pos)
  {
    var items := ShownItems(pos);
    var inner := Join(items, ",");
    ShowBodyForm(pos);
    var last := ShowInt(pos[2]);
    ShowIntChars(pos[2]);
    assert inner[0] == 'x';
    assert inner[|inner| - 1] == last[|last| - 1];
    TrimByWrapped('<', inner, '>', IsAngle);
    ItemFree("x", pos[0]);
    ItemFree(" y", pos[1]);
    ItemFree(" z", pos[2]);
    SplitJoin(items, ',');
  }

  /** The keys a shown body uses name the three axes. */
  lemma ShownKeys()
    ensures AxisIndex(Trim("x")) == Some(0) && AxisIndex(Trim(" y")) == Some(1) && AxisIndex(Trim(" z")) == Some(2)
    ensures '=' !in "x" && '=' !in " y" && '=' !in " z"
  {
    assert Trim("x") == "x" && Trim(" y") == "y" && Trim(" z") == "z";
  }

  /** Setting each axis in turn from `pos` gives `pos`. */
  lemma SetAtEach(pos: Vec3)
    ensures SetAt(SetAt(SetAt(Zero, 0, pos[0]), 1, pos[1]), 2, pos[2]) == pos
  {
  }

  /** An item holds a comma only when its key does. */
  lemma ItemFree(key: string, v: int)
    requires ',' !in key
    ensures ',' !in ShowItem(key, v)
  {
    ShowIntChars(v);
  }

  /** The items set the three axes in turn. */
  lemma SetAxesShown(pos: Vec3)
    requires forall a :: 0 <= a < 3 ==> I32Min <= pos[a] <= I32Max
    ensures SetAxes(Zero, ShownItems(pos)) == Ok(pos)
  {
    var items := ShownItems(pos);
    ShownKeys();
    var p0 := SetAt(Zero, 0, pos[0]);
    var p1 := SetAt(p0, 1, pos[1]);
    SetAxisShown(Zero, "x", 0, pos[0]);
    SetAxisShown(p0, " y", 1, pos[1]);
    SetAxisShown(p1, " z", 2, pos[2]);
    FoldThree(Zero, items[0], items[1], items[2], SetAxis, p0, p1);
    SetAtEach(pos);
  }

  /** `read_locations` reads back every position, within `i32`, written in
      the puzzle's format. */
  lemma ReadShown(pos: Vec3)
    requires forall a :: 0 <= a < 3 ==> I32Min <= pos[a] <= I32Max
    ensures BodyOfLine(ShowBody(pos)) == Ok(Body(pos, Zero))
  {
    SplitShown(pos);
    SetAxesShown(pos);
  }

  /** The first body of the puzzle's example. */
  lemma ReadExample()
    ensures BodyOfLine("<x=-1, y=0, z=2>") == Ok(Body([-1, 0, 2], Zero))
  {
    var pos: Vec3 := [-1, 0, 2];
    assert ShowInt(-1) == "-1" && ShowInt(0) == "0" && ShowInt(2) == "2";
    ShowBodyForm(pos);
    assert ShowBody(pos) == "<x=-1, y=0, z=2>";
    ReadShown(pos);
  }

  // ---------------------------------------------------------------------
  // `gravity` (twelve.rs:42-56)
  // ---------------------------------------------------------------------

  /** The total pull on body `k` from the bodies `0 .. hi-1`. */
  function PullsOn(bs: seq<Body>, k: nat, hi: nat): Vec3
    requires k < |bs| && hi <= |bs|
  {
    if hi == 0 then Zero else Add(PullsOn(bs, k, hi - 1), PullVec(bs[k].pos, bs[hi - 1].pos))
  }

  /** Body `k` once the bodies `0 .. hi-1` have pulled on it. */
  function Pulled(bs: seq<Body>, k: nat, hi: nat): Body
    requires k < |bs| && hi <= |bs|
  {
    Body(bs[k].pos, Add(bs[k].vel, PullsOn(bs, k, hi)))
  }

  /** One round of gravity: every body keeps its position and its
      velocity changes by the pulls of all the bodies. */
  function GravityStep(bs: seq<Body>): (r: seq<Body>)
    ensures |r| == |bs|
    ensures forall k :: 0 <= k < |bs| ==> r[k] == Pulled(bs, k, |bs|)
  {
    seq(|bs|, k requires 0 <= k < |bs| => Pulled(bs, k, |bs|))
  }

  lemma PulledNext(bs: seq<Body>, k: nat, hi: nat)
    requires k < |bs| && hi < |bs|
    ensures Pulled(bs, k, hi + 1)
      == Pulled(bs, k, hi).(vel := Add(Pulled(bs, k, hi).vel, PullVec(bs[k].pos, bs[hi].pos)))
  {
  }

  /** A body does not pull on itself. */
  lemma PulledSelf(bs: seq<Body>, k: nat)
    requires k < |bs|
    ensures Pulled(bs, k, k + 1) == Pulled(bs, k, k)
  {
    PullOpposite(bs[k].pos, bs[k].pos);
  }

  /** The innermost loop of `gravity`: bodies `i` and `j` pull on each other
      along every axis. */
  method Attract(bodies: array<Body>, i: nat, j: nat)
    requires i < j < bodies.Length
    modifies bodies
    ensures bodies[i] == old(bodies[i]).(vel := Add(old(bodies[i]).vel, PullVec(old(bodies[i]).pos, old(bodies[j]).pos)))
    ensures bodies[j] == old(bodies[j]).(vel := Add(old(bodies[j]).vel, PullVec(old(bodies[j]).pos, old(bodies[i]).pos)))
    ensures forall k :: 0 <= k < bodies.Length && k != i && k != j ==> bodies[k] == old(bodies[k])
  {
    ghost var bi, bj := bodies[i], bodies[j];
    for axis := 0 to 3
      invariant bodies[i].pos == bi.pos && bodies[j].pos == bj.pos
      invariant forall a :: 0 <= a < 3 ==>
        bodies[i].vel[a] == bi.vel[a] + (if a < axis then Pull(bi.pos[a], bj.pos[a]) else 0)
      invariant forall a :: 0 <= a < 3 ==>
        bodies[j].vel[a] == bj.vel[a] + (if a < axis then Pull(bj.pos[a], bi.pos[a]) else 0)
      invariant forall k :: 0 <= k < bodies.Length && k != i && k != j ==> bodies[k] == old(bodies[k])
    {
      if bodies[i].pos[axis] < bodies[j].pos[axis] {
        bodies[i] := bodies[i].(vel := bodies[i].vel[axis := bodies[i].vel[axis] + 1]);
        bodies[j] := bodies[j].(vel := bodies[j].vel[axis := bodies[j].vel[axis] - 1]);
      } else if bodies[i].pos[axis] > bodies[j].pos[axis] {
        bodies[i] := bodies[i].(vel := bodies[i].vel[axis := bodies[i].vel[axis] - 1]);
        bodies[j] := bodies[j].(vel := bodies[j].vel[axis := bodies[j].vel[axis] + 1]);
      }
    }
    assert bodies[i].vel == Add(bi.vel, PullVec(bi.pos, bj.pos));
    assert bodies[j].vel == Add(bj.vel, PullVec(bj.pos, bi.pos));
  }

  /** The middle loop of `gravity`: body `i`, already pulled by the bodies
      before it, and every later body pull on each other. */
  method AttractAll(bodies: array<Body>, ghost bs: seq<Body>, i: nat)
    requires i < bodies.Length == |bs|
    requires forall k :: 0 <= k < |bs| ==> bodies[k] == Pulled(bs, k, if k < i then |bs| else i)
    modifies bodies
    ensures forall k :: 0 <= k < |bs| ==> bodies[k] == Pulled(bs, k, if k < i + 1 then |bs| else i + 1)
  {
    var n := bodies.Length;
    PulledSelf(bs, i);
    for j := i + 1 to n
      invariant bodies[i] == Pulled(bs, i, j)
      invariant forall k :: 0 <= k < n && k != i ==>
        bodies[k] == Pulled(bs, k, if k < i then n else if k < j then i + 1 else i)
    {
      PulledNext(bs, i, j);
      PulledNext(bs, j, i);
      Attract(bodies, i, j);
    }
  }

  /** `gravity`: after the pairwise loops every body has felt every other one
      exactly once, so the result is `GravityStep` of the old bodies. */
  method Gravity(bodies: array<Body>)
    modifies bodies
    ensures bodies[..] == GravityStep(old(bodies[..]))
  {
    ghost var bs := bodies[..];
    var n := bodies.Length;
    for i := 0 to n
      invariant forall k :: 0 <= k < n ==> bodies[k] == Pulled(bs, k, if k < i then n else i)
    {
      AttractAll(bodies, bs, i);
    }
    assert bodies[..] == GravityStep(bs) by {
      forall k | 0 <= k < n ensures bodies[..][k] == GravityStep(bs)[k] { }
    }
  }

  // ---------------------------------------------------------------------
  // `velocity` (twelve.rs:58-64)
  // ---------------------------------------------------------------------

  /** Every body moves by its velocity, which stays as it is. */
  function Drift(bs: seq<Body>): (r: seq<Body>)
    ensures |r| == |bs|
    ensures forall k :: 0 <= k < |bs| ==> r[k].vel == bs[k].vel && r[k].pos == Add(bs[k].pos, bs[k].vel)
  {
    seq(|bs|, k requires 0 <= k < |bs| => Body(Add(bs[k].pos, bs[k].vel), bs[k].vel))
  }

  method Velocity(bodies: array<Body>)
    modifies bodies
    ensures bodies[..] == Drift(old(bodies[..]))
  {
    ghost var bs := bodies[..];
    for k := 0 to bodies.Length
      invariant forall m :: 0 <= m < bodies.Length ==> bodies[m] == if m < k then Drift(bs)[m] else bs[m]
    {
      for axis := 0 to 3
        invariant bodies[k].vel == bs[k].vel
        invariant forall a :: 0 <= a < 3 ==> bodies[k].pos[a] == bs[k].pos[a] + (if a < axis then bs[k].vel[a] else 0)
        invariant forall m :: 0 <= m < bodies.Length && m != k ==> bodies[m] == if m < k then Drift(bs)[m] else bs[m]
      {
        bodies[k] := bodies[k].(pos := bodies[k].pos[axis := bodies[k].pos[axis] + bodies[k].vel[axis]]);
      }
      assert bodies[k].pos == Add(bs[k].pos, bs[k].vel);
    }
    assert bodies[..] == Drift(bs) by {
      forall m | 0 <= m < bodies.Length ensures bodies[..][m] == Drift(bs)[m] { }
    }
  }

  // ---------------------------------------------------------------------
  // Momentum: gravity never changes the sum of the velocities
  // ---------------------------------------------------------------------

  /** The sum of the velocities of the bodies `0 .. upto-1`. */
  function Momentum(bs: seq<Body>, upto: nat): Vec3
    requires upto <= |bs|
  {
    if upto == 0 then Zero else Add(Momentum(bs, upto - 1), bs[upto - 1].vel)
  }

  /** The pulls that body `m` exerts on the bodies `0 .. upto-1`. */
  function PullsBy(bs: seq<Body>, m: nat, upto: nat): Vec3
    requires m < |bs| && upto <= |bs|
  {
    if upto == 0 then Zero else Add(PullsBy(bs, m, upto - 1), PullVec(bs[upto - 1].pos, bs[m].pos))
  }

  /** The pulls felt by the bodies `0 .. upto-1` from the bodies `0 .. hi-1`. */
  function PullsAmong(bs: seq<Body>, hi: nat, upto: nat): Vec3
    requires hi <= |bs| && upto <= |bs|
  {
    if upto == 0 then Zero else Add(PullsAmong(bs, hi, upto - 1), PullsOn(bs, upto - 1, hi))
  }

  /** What `m` exerts on others is the opposite of what it feels from them. */
  lemma {:induction false} PullsByOpposite(bs: seq<Body>, m: nat, upto: nat)
    requires m < |bs| && upto <= |bs|
    ensures PullsBy(bs, m, upto) == Neg(PullsOn(bs, m, upto))
  {
    if upto > 0 {
      PullsByOpposite(bs, m, upto - 1);
      PullOpposite(bs[m].pos, bs[upto - 1].pos);
    }
  }

  lemma {:induction false} PullsAmongGrow(bs: seq<Body>, hi: nat, upto: nat)
    requires hi < |bs| && upto <= |bs|
    ensures PullsAmong(bs, hi + 1, upto) == Add(PullsAmong(bs, hi, upto), PullsBy(bs, hi, upto))
  {
    if upto > 0 {
      var k := upto - 1;
      PullsAmongGrow(bs, hi, k);
      AddSwap(PullsAmong(bs, hi, k), PullsBy(bs, hi, k), PullsOn(bs, k, hi), PullVec(bs[k].pos, bs[hi].pos));
    }
  }

  /** Among the bodies `0 .. n-1` every pull is cancelled by its opposite. */
  lemma {:induction false} PullsAmongCancel(bs: seq<Body>, n: nat)
    requires n <= |bs|
    ensures PullsAmong(bs, n, n) == Zero
  {
    if n > 0 {
      var m := n - 1;
      PullsAmongCancel(bs, m);
      PullsAmongGrow(bs, m, m);
      PullsByOpposite(bs, m, m);
      PulledSelf(bs, m);
      assert PullsOn(bs, m, n) == Add(PullsOn(bs, m, m), PullVec(bs[m].pos, bs[m].pos));
      PullOpposite(bs[m].pos, bs[m].pos);
    }
  }

  lemma {:induction false} GravityMomentumUpto(bs: seq<Body>, upto: nat)
    requires upto <= |bs|
    ensures Momentum(GravityStep(bs), upto) == Add(Momentum(bs, upto), PullsAmong(bs, |bs|, upto))
  {
    if upto > 0 {
      var k := upto - 1;
      GravityMomentumUpto(bs, k);
      assert GravityStep(bs)[k].vel == Add(bs[k].vel, PullsOn(bs, k, |bs|));
      AddSwap(Momentum(bs, k), PullsAmong(bs, |bs|, k), bs[k].vel, PullsOn(bs, k, |bs|));
    }
  }

  /** `gravity` leaves every position as it was and preserves the sum of
      the velocities on each axis. */
  lemma GravityConserves(bs: seq<Body>)
    ensures forall k :: 0 <= k < |bs| ==> GravityStep(bs)[k].pos == bs[k].pos
    ensures Momentum(GravityStep(bs), |bs|) == Momentum(bs, |bs|)
  {
    var m := Momentum(bs, |bs|);
    var p := PullsAmong(bs, |bs|, |bs|);
    GravityMomentumUpto(bs, |bs|);
    assert Momentum(GravityStep(bs), |bs|) == Add(m, p);
    PullsAmongCancel(bs, |bs|);
    assert p == Zero;
    AddZero(m);
  }

  lemma {:induction false} DriftMomentum(bs: seq<Body>, upto: nat)
    requires upto <= |bs|
    ensures Momentum(Drift(bs), upto) == Momentum(bs, upto)
  {
    if upto > 0 {
      DriftMomentum(bs, upto - 1);
    }
  }

  // ---------------------------------------------------------------------
  // `energy` and `sim` (twelve.rs:66-78, 114-120)
  // ---------------------------------------------------------------------

  /** The sum of the absolute values of the three components. */
  function Norm(v: Vec3): nat
  {
    Abs(v[0]) + Abs(v[1]) + Abs(v[2])
  }

  /** A body's potential energy times its kinetic energy. */
  function BodyEnergy(b: Body): nat
  {
    Norm(b.pos) * Norm(b.vel)
  }

  function TotalEnergy(bs: seq<Body>): nat
  {
    if bs == [] then 0 else TotalEnergy(bs[..|bs| - 1]) + BodyEnergy(bs[|bs| - 1])
  }

  /** The total energy vanishes exactly when every body is at the origin
      or at rest. */
  lemma {:induction false} EnergyZero(bs: seq<Body>)
    ensures TotalEnergy(bs) == 0 <==> forall k :: 0 <= k < |bs| ==> Norm(bs[k].pos) == 0 || Norm(bs[k].vel) == 0
  {
    if bs != [] {
      var last := bs[|bs| - 1];
      EnergyZero(bs[..|bs| - 1]);
      assert BodyEnergy(last) == 0 <==> Norm(last.pos) == 0 || Norm(last.vel) == 0 by {
        if Norm(last.pos) > 0 && Norm(last.vel) > 0 {
          MulAtLeast(Norm(last.pos), Norm(last.vel));
        }
      }
      assert forall k :: 0 <= k < |bs| - 1 ==> bs[..|bs| - 1][k] == bs[k];
    }
  }

  /** `energy`: the loop over the bodies and, inside it, over the axes. */
  method Energy(bodies: seq<Body>) returns (e: int)
    ensures e == TotalEnergy(bodies)
  {
    e := 0;
    for k := 0 to |bodies|
      invariant e == TotalEnergy(bodies[..k])
    {
      var b := bodies[k];
      var pot := 0;
      var kin := 0;
      for axis := 0 to 3
        invariant pot == Abs(b.pos[0]) * (if axis > 0 then 1 else 0)
          + Abs(b.pos[1]) * (if axis > 1 then 1 else 0) + Abs(b.pos[2]) * (if axis > 2 then 1 else 0)
        invariant kin == Abs(b.vel[0]) * (if axis > 0 then 1 else 0)
          + Abs(b.vel[1]) * (if axis > 1 then 1 else 0) + Abs(b.vel[2]) * (if axis > 2 then 1 else 0)
      {
        pot := pot + Abs(b.pos[axis]);
        kin := kin + Abs(b.vel[axis]);
      }
      e := e + pot * kin;
      assert bodies[..k + 1][..k] == bodies[..k];
    }
    assert bodies[..|bodies|] == bodies;
  }

  /** One round of `gravity` followed by one of `velocity`. */
  function Step(bs: seq<Body>): (r: seq<Body>)
    ensures |r| == |bs|
  {
    Drift(GravityStep(bs))
  }

  function Steps(bs: seq<Body>, n: nat): (r: seq<Body>)
    ensures |r| == |bs|
  {
    if n == 0 then bs else Step(Steps(bs, n - 1))
  }

  /** A whole step conserves momentum, */
  lemma StepConserves(bs: seq<Body>)
    ensures Momentum(Step(bs), |bs|) == Momentum(bs, |bs|)
  {
    var mid := GravityStep(bs);
    GravityConserves(bs);
    DriftMomentum(mid, |bs|);
  }

  /** and so does any number of steps. */
  lemma StepsConserve(bs: seq<Body>, n: nat)
    ensures Momentum(Steps(bs, n), |bs|) == Momentum(bs, |bs|)
  {
    var cur := bs;
    for i := 0 to n
      invariant cur == Steps(bs, i) && |cur| == |bs|
      invariant Momentum(cur, |bs|) == Momentum(bs, |bs|)
    {
      StepConserves(cur);
      cur := Step(cur);
    }
  }

  /** A fresh array holding the bodies; `sim` and `find_periods` take
      their vector by value and work on it in place. */
  method Load(bs: seq<Body>) returns (a: array<Body>)
    ensures fresh(a) && a[..] == bs
  {
    a := new Body[|bs|](k requires 0 <= k < |bs| => bs[k]);
  }

  /** One time step of the simulation, in place: gravity, then velocity. */
  method Advance(bodies: array<Body>)
    modifies bodies
    ensures bodies[..] == Step(old(bodies[..]))
  {
    Gravity(bodies);
    Velocity(bodies);
  }

  /** `sim`: `steps` rounds of gravity and velocity, then the energy. */
  method Sim(bodies: seq<Body>, steps: nat) returns (e: int)
    ensures e == TotalEnergy(Steps(bodies, steps))
  {
    var state := Load(bodies);
    for s := 0 to steps
      invariant state[..] == Steps(bodies, s)
    {
      Advance(state);
    }
    e := Energy(state[..]);
  }

  // ---------------------------------------------------------------------
  // Divisibility, primes and prime powers
  // ---------------------------------------------------------------------

  predicate IsPrime(p: int)
  {
    p >= 2 && forall d :: 2 <= d < p ==> p % d != 0
  }

  /** `a` divides `c` when it divides a divisor `b` of `c`. */
  lemma DividesTrans(a: int, b: int, c: int)
    requires a > 0 && b > 0 && Ten.Divides(a, b) && Ten.Divides(b, c)
    ensures Ten.Divides(a, c)
  {
    var x := b / a;
    assert b == a * x;
    assert c == b * (c / b);
    assert c == a * (x * (c / b));
    MulDiv(a, x * (c / b));
  }

  /** Divisibility is compatible with products. */
  lemma DividesMul(a: int, b: int, c: int, d: int)
    requires a > 0 && c > 0 && Ten.Divides(a, b) && Ten.Divides(c, d)
    ensures a * c > 0 && Ten.Divides(a * c, b * d)
  {
    var x, y := b / a, d / c;
    assert b == a * x && d == c * y;
    assert b * d == (a * c) * (x * y);
    MulAtLeast(a, c);
    MulDiv(a * c, x * y);
  }

  lemma DivExact(d: int, n: int)
    requires d > 0 && n % d == 0
    ensures n == d * (n / d)
  {
  }

  /** A common positive factor cancels from a divisibility. */
  lemma DividesCancel(q: int, x: int, y: int)
    requires q > 0 && x > 0 && Ten.Divides(q * x, q * y)
    ensures Ten.Divides(x, y)
  {
    MulAtLeast(q, x);
    var m := (q * y) / (q * x);
    DivExact(q * x, q * y);
    MulAssoc(q, x, m);
    assert y * q == (x * m) * q;
    MulCancelRight(y, x * m, q);
    MulDiv(x, m);
  }

  /** The only divisors of a prime are 1 and itself. */
  lemma PrimeDivisor(p: int, d: int)
    requires IsPrime(p) && d > 0 && Ten.Divides(d, p)
    ensures d == 1 || d == p
  {
    Ten.DividesBound(d, p);
  }

  /** Euclid's lemma for a prime: `p` divides a product only through one of
      its factors. */
  lemma PrimeEuclid(p: int, a: int, b: int)
    requires IsPrime(p) && a > 0 && Ten.Divides(p, a * b) && !Ten.Divides(p, a)
    ensures Ten.Divides(p, b)
  {
    var g := Ten.Gcd(p, a);
    Ten.GcdDivides(p, a);
    PrimeDivisor(p, g);
    Ten.Euclid(p, a, b);
  }

  /** A prime divides no power of a different prime. */
  lemma {:induction false} PrimeNotDividesPower(q: int, r: int, e: nat)
    requires IsPrime(q) && IsPrime(r) && q != r
    ensures Pow(r, e) > 0 && !Ten.Divides(q, Pow(r, e))
  {
    PowPositive(r, e);
    if e == 0 {
      assert 1 % q == 1;
    } else {
      PrimeNotDividesPower(q, r, e - 1);
      assert !Ten.Divides(q, r) by {
        if Ten.Divides(q, r) { PrimeDivisor(r, q); }
      }
      if Ten.Divides(q, Pow(r, e)) {
        assert Pow(r, e) == r * Pow(r, e - 1);
        PrimeEuclid(q, r, Pow(r, e - 1));
      }
    }
  }

  /** A prime power dividing `a * k`, where the prime does not divide `a`,
      divides `k`. */
  lemma {:induction false} PowerDividesCofactor(q: int, e: nat, a: int, k: int)
    requires IsPrime(q) && a > 0 && !Ten.Divides(q, a)
    requires Pow(q, e) > 0 && Ten.Divides(Pow(q, e), a * k)
    ensures Ten.Divides(Pow(q, e), k)
  {
    if e > 0 {
      PowPositive(q, e - 1);
      var below := Pow(q, e - 1);
      assert Pow(q, e) == q * below;
      assert Ten.Divides(q, q * below) by { MulDiv(q, below); }
      DividesTrans(q, q * below, a * k);
      PrimeEuclid(q, a, k);
      var k1 := k / q;
      assert k == q * k1;
      assert a * k == q * (a * k1);
      DividesCancel(q, below, a * k1);
      PowerDividesCofactor(q, e - 1, a, k1);
      Ten.DividesScaled(q, below, k1);
    }
  }

  // ---------------------------------------------------------------------
  // `prime_fact` (twelve.rs:17-40)
  // ---------------------------------------------------------------------

  datatype Term = Term(base: nat, exp: nat)

  /** The message of `unreachable!("what happened?!")`. */
  const Unreachable: string := "internal error: entered unreachable code: what happened?!"

  /** The product of the terms' prime powers. */
  function TermsProduct(f: seq<Term>): int
  {
    if f == [] then 1 else TermsProduct(f[..|f| - 1]) * Pow(f[|f| - 1].base, f[|f| - 1].exp)
  }

  predicate PrimeTerms(f: seq<Term>)
  {
    forall i :: 0 <= i < |f| ==> IsPrime(f[i].base) && f[i].exp >= 1
  }

  predicate Increasing(f: seq<Term>)
  {
    forall i, j :: 0 <= i < j < |f| ==> f[i].base < f[j].base
  }

  /** `f` is the prime factorisation of `n`: primes in increasing order,
      each with a positive exponent, multiplying to `n`. */
  predicate IsFactorisation(n: int, f: seq<Term>)
  {
    PrimeTerms(f) && Increasing(f) && TermsProduct(f) == n
  }

  lemma {:induction false} TermsProductPositive(f: seq<Term>)
    requires PrimeTerms(f)
    ensures TermsProduct(f) > 0
    ensures f != [] ==> TermsProduct(f) >= 2
  {
    if f != [] {
      var t := f[|f| - 1];
      TermsProductPositive(f[..|f| - 1]);
      PowPositive(t.base, t.exp);
      assert Pow(t.base, t.exp) == t.base * Pow(t.base, t.exp - 1);
      PowPositive(t.base, t.exp - 1);
      MulAtLeast(t.base, Pow(t.base, t.exp - 1));
      MulAtLeast(Pow(t.base, t.exp), TermsProduct(f[..|f| - 1]));
    }
  }

  lemma TermsProductPush(f: seq<Term>, t: Term)
    ensures TermsProduct(f + [t]) == TermsProduct(f) * Pow(t.base, t.exp)
  {
    assert (f + [t])[..|f|] == f;
  }

  /** Appending a prime above every base keeps a list of terms well formed. */
  lemma PushTerm(f: seq<Term>, t: Term)
    requires PrimeTerms(f) && Increasing(f) && IsPrime(t.base) && t.exp >= 1
    requires forall i :: 0 <= i < |f| ==> f[i].base < t.base
    ensures PrimeTerms(f + [t]) && Increasing(f + [t])
    ensures forall i :: 0 <= i < |f + [t]| ==> (f + [t])[i].base <= t.base
    ensures TermsProduct(f + [t]) == TermsProduct(f) * Pow(t.base, t.exp)
  {
    TermsProductPush(f, t);
  }

  lemma MulAssoc(a: int, b: int, c: int)
    ensures a * (b * c) == a * b * c
  {
  }

  lemma MulRegroup(p: int, w: int, d: int, q: int)
    ensures p * (d * w) * q == p * w * (d * q)
  {
  }

  /** Having neither `n`'s divisors in `2..d` nor a factorisation into two
      factors above `d`, a number below `(d + 1)^2`... is prime; this is the
      reason for the `d * d > n` exit. */
  lemma CofactorIsPrime(tmp: int, d: int, n: int)
    requires 2 <= d && 2 <= tmp <= n < d * d
    requires forall e :: 2 <= e <= d ==> tmp % e != 0
    ensures IsPrime(tmp) && tmp > d
  {
    assert tmp % tmp == 0;
    forall e | 2 <= e < tmp
      ensures tmp % e != 0
    {
      if tmp % e == 0 {
        var f := tmp / e;
        assert tmp == e * f;
        if f <= 1 {
          MulMonotone(f, 1, e);
        }
        assert f * e == tmp;
        MulDiv(e, f);
        assert tmp % f == 0 by { MulDiv(f, e); }
        assert e > d && f > d;
        MulMonotone(d, e, d);
        MulMonotone(d, f, e);
      }
    }
  }

  /** `d` divides `tmp` and no number in `2..d-1` does, so `d` is prime. */
  lemma SmallestDivisorIsPrime(tmp: int, d: int)
    requires 2 <= d && tmp > 0 && tmp % d == 0
    requires forall e :: 2 <= e < d ==> tmp % e != 0
    ensures IsPrime(d)
  {
    forall e | 2 <= e < d
      ensures d % e != 0
    {
      if d % e == 0 {
        DividesTrans(e, d, tmp);
      }
    }
  }

  /** Dividing out `d` keeps `tmp` free of the divisors below `d`. */
  lemma QuotientKeepsFree(tmp: int, d: int)
    requires 2 <= d && tmp > 0 && tmp % d == 0
    requires forall e :: 2 <= e < d ==> tmp % e != 0
    ensures forall e :: 2 <= e < d ==> (tmp / d) % e != 0
  {
    forall e | 2 <= e < d
      ensures (tmp / d) % e != 0
    {
      if (tmp / d) % e == 0 {
        assert tmp == (tmp / d) * d;
        Ten.DividesMultiple(e, tmp / d, d);
      }
    }
  }

  /** The inner loop of `prime_fact`: divides `d` out of `tmp` as often as
      it goes, stopping as soon as 1 is left (where the source returns). */
  method DivideOut(tmp: int, d: int) returns (rest: int, exp: nat)
    requires 2 <= d && 2 <= tmp
    requires forall e :: 2 <= e < d ==> tmp % e != 0
    ensures Pow(d, exp) * rest == tmp
    ensures rest == 1 || (rest >= 2 && rest % d != 0)
    ensures rest == 1 ==> exp > 0
    ensures exp > 0 ==> IsPrime(d)
    ensures forall e :: 2 <= e < d ==> rest % e != 0
  {
    rest, exp := tmp, 0;
    while rest % d == 0
      invariant 2 <= rest && Pow(d, exp) * rest == tmp
      invariant forall e :: 2 <= e < d ==> rest % e != 0
      invariant exp > 0 ==> IsPrime(d)
      decreases rest
    {
      var q := rest / d;
      DivideOnce(tmp, rest, d, exp);
      exp := exp + 1;
      rest := q;
      if rest == 1 {
        return;
      }
    }
  }

  /** One round of the inner loop of `prime_fact`: dividing by `d` once
      more keeps the product with the power of `d` and the absence of
      smaller divisors. */
  lemma DivideOnce(tmp: int, rest: int, d: int, exp: nat)
    requires 2 <= d && 2 <= rest && rest % d == 0 && Pow(d, exp) * rest == tmp
    requires forall e :: 2 <= e < d ==> rest % e != 0
    ensures 1 <= rest / d < rest && Pow(d, exp + 1) * (rest / d) == tmp
    ensures forall e :: 2 <= e < d ==> (rest / d) % e != 0
    ensures IsPrime(d)
  {
    SmallestDivisorIsPrime(rest, d);
    QuotientKeepsFree(rest, d);
    var q := rest / d;
    assert rest == d * q;
    assert q >= 1 && q < rest by {
      MulMonotone(2, d, q);
    }
    MulRegroup(1, Pow(d, exp), d, q);
  }

  /** The terms collected so far, all below `d`, times what is left of `n`
      give `n`, and what is left has no divisor below `d`. */
  predicate TrialState(res: seq<Term>, tmp: int, d: int, n: int)
  {
    PrimeTerms(res) && Increasing(res)
    && (forall i :: 0 <= i < |res| ==> res[i].base < d)
    && TermsProduct(res) * tmp == n
    && (forall e :: 2 <= e < d ==> tmp % e != 0)
  }

  /** Recording the power of `d` just divided out (if any). */
  lemma AfterDivision(res: seq<Term>, tmp: int, d: int, n: int, rest: int, exp: nat)
    requires 2 <= d && TrialState(res, tmp, d, n)
    requires Pow(d, exp) * rest == tmp && (exp > 0 ==> IsPrime(d))
    requires forall e :: 2 <= e < d ==> rest % e != 0
    ensures var after := if exp > 0 then res + [Term(d, exp)] else res;
      PrimeTerms(after) && Increasing(after)
      && (forall i :: 0 <= i < |after| ==> after[i].base <= d)
      && TermsProduct(after) * rest == n
      && (rest == 1 ==> IsFactorisation(n, after))
  {
    var p := TermsProduct(res);
    var w := Pow(d, exp);
    assert p * w * rest == n by {
      assert p * (w * rest) == n;
      MulAssoc(p, w, rest);
    }
    if exp > 0 {
      PushTerm(res, Term(d, exp));
    }
  }

  /** The loop state of `prime_fact` before trying `d`; the last conjunct
      keeps `d` within `n` (it stands for `(d - 1) * (d - 1) <= n`). */
  predicate Trial(res: seq<Term>, tmp: int, d: int, n: int)
  {
    2 <= d && (n >= 3 ==> d <= n && 2 <= tmp)
    && (d > 2 ==> 2 * (d - 1) <= n)
    && TrialState(res, tmp, d, n)
  }

  /** Moving on to the next trial divisor. */
  lemma NextTrial(res: seq<Term>, tmp: int, d: int, n: int)
    requires 2 <= d && 2 <= tmp && 2 * d <= n && PrimeTerms(res) && Increasing(res)
    requires forall i :: 0 <= i < |res| ==> res[i].base <= d
    requires TermsProduct(res) * tmp == n
    requires forall e :: 2 <= e < d ==> tmp % e != 0
    requires tmp % d != 0
    ensures Trial(res, tmp, d + 1, n)
  {
  }

  /** The range of divisors runs out only when `n < 3`. */
  lemma TrialExhausted(res: seq<Term>, tmp: int, d: int, n: int)
    requires Trial(res, tmp, d, n) && d >= n
    ensures n < 3
  {
  }

  /** The `d * d > n` exit: what is left is a prime above every base. */
  lemma CofactorExit(res: seq<Term>, tmp: int, d: int, n: int)
    requires 2 <= d && 2 <= tmp && n < d * d
    requires PrimeTerms(res) && Increasing(res)
    requires forall i :: 0 <= i < |res| ==> res[i].base <= d
    requires TermsProduct(res) * tmp == n
    requires forall e :: 2 <= e <= d ==> tmp % e != 0
    ensures IsFactorisation(n, res + [Term(tmp, 1)])
  {
    var p := TermsProduct(res);
    TermsProductPositive(res);
    MulMonotone(1, p, tmp);
    assert tmp <= n;
    CofactorIsPrime(tmp, d, n);
    PushTerm(res, Term(tmp, 1));
    assert Pow(tmp, 1) == tmp;
    assert TermsProduct(res + [Term(tmp, 1)]) == p * tmp;
  }

  /** `prime_fact`: trial division by `d = 2, 3, ...`.  A run of divisions
      that leaves 1 ends the search at once; otherwise, once `d * d > n`, what
      is left is a prime larger than every `d` tried.  For `n < 3` the range
      of divisors is empty and the source reaches `unreachable!`. */
  method PrimeFact(n: nat) returns (r: Result<seq<Term>>)
    ensures r.Ok? <==> n >= 3
    ensures r.Ok? ==> IsFactorisation(n, r.value)
    ensures !r.Ok? ==> r == Err(Unreachable)
  {
    var res: seq<Term> := [];
    var tmp := n;
    var d := 2;
    while d < n
      invariant Trial(res, tmp, d, n)
    {
      var rest, exp := DivideOut(tmp, d);
      AfterDivision(res, tmp, d, n, rest, exp);
      if rest == 1 {
        res := res + [Term(d, exp)];
        return Ok(res);
      }
      if exp > 0 {
        res := res + [Term(d, exp)];
      }
      tmp := rest;
      if d * d > n {
        CofactorExit(res, tmp, d, n);
        res := res + [Term(tmp, 1)];
        return Ok(res);
      }
      MulMonotone(2, d, d);
      NextTrial(res, tmp, d, n);
      d := d + 1;
    }
    TrialExhausted(res, tmp, d, n);
    return Err(Unreachable);
  }

  // ---------------------------------------------------------------------
  // The factorisation is unique, so `prime_fact`'s result is determined
  // ---------------------------------------------------------------------

  /** A prime dividing a product of prime powers is one of their bases. */
  lemma {:induction false} PrimeDividesTerms(q: int, f: seq<Term>)
    requires IsPrime(q) && PrimeTerms(f) && Ten.Divides(q, TermsProduct(f))
    ensures exists i :: 0 <= i < |f| && f[i].base == q
  {
    assert 1 % q == 1;
    if f != [] {
      var t := f[|f| - 1];
      var front := f[..|f| - 1];
      assert PrimeTerms(front);
      if t.base != q {
        PrimeNotDividesPower(q, t.base, t.exp);
        TermsProductPositive(front);
        assert TermsProduct(f) == Pow(t.base, t.exp) * TermsProduct(front);
        PrimeEuclid(q, Pow(t.base, t.exp), TermsProduct(front));
        PrimeDividesTerms(q, front);
        var i :| 0 <= i < |front| && front[i].base == q;
        assert f[i].base == q;
      }
    }
  }

  /** Cancelling the common power `p^e` from `a * p^e == b * p^e2`. */
  lemma PowerCancel(p: int, e: nat, e2: nat, a: int, b: int)
    requires p >= 2 && e <= e2 && a * Pow(p, e) == b * Pow(p, e2)
    ensures a == b * Pow(p, e2 - e)
  {
    PowPositive(p, e);
    PowAdd(p, e2 - e, e);
    assert Pow(p, e2) == Pow(p, e2 - e) * Pow(p, e);
    assert a * Pow(p, e) == (b * Pow(p, e2 - e)) * Pow(p, e);
    MulCancelRight(a, b * Pow(p, e2 - e), Pow(p, e));
  }

  lemma MulCancelRight(x: int, y: int, c: int)
    requires c > 0 && x * c == y * c
    ensures x == y
  {
  }

  /** A prime power above every base does not divide the product. */
  lemma NotDividedByLargerBase(p: int, f: seq<Term>)
    requires IsPrime(p) && PrimeTerms(f)
    requires forall i :: 0 <= i < |f| ==> f[i].base < p
    ensures !Ten.Divides(p, TermsProduct(f))
  {
    if Ten.Divides(p, TermsProduct(f)) {
      PrimeDividesTerms(p, f);
    }
  }

  /** The last base of a factorisation divides the number. */
  lemma LastBaseDivides(f: seq<Term>)
    requires PrimeTerms(f) && f != []
    ensures f[|f| - 1].base > 0 && Ten.Divides(f[|f| - 1].base, TermsProduct(f))
  {
    var t := f[|f| - 1];
    assert Pow(t.base, t.exp) == t.base * Pow(t.base, t.exp - 1);
    assert TermsProduct(f) == t.base * (Pow(t.base, t.exp - 1) * TermsProduct(f[..|f| - 1]));
    MulDiv(t.base, Pow(t.base, t.exp - 1) * TermsProduct(f[..|f| - 1]));
  }

  /** Two factorisations of the same number end in the same prime. */
  lemma LastBasesAgree(f: seq<Term>, g: seq<Term>)
    requires PrimeTerms(f) && Increasing(f) && PrimeTerms(g) && Increasing(g)
    requires f != [] && g != [] && TermsProduct(f) == TermsProduct(g)
    ensures f[|f| - 1].base == g[|g| - 1].base
  {
    var p, q := f[|f| - 1].base, g[|g| - 1].base;
    LastBaseDivides(f);
    LastBaseDivides(g);
    PrimeDividesTerms(p, g);
    PrimeDividesTerms(q, f);
  }

  lemma HasFactor(p: int, k: nat, b: int)
    requires p > 0 && k >= 1
    ensures Ten.Divides(p, b * Pow(p, k))
  {
    assert b * Pow(p, k) == p * (b * Pow(p, k - 1));
    MulDiv(p, b * Pow(p, k - 1));
  }

  /** With a common last prime `p`, which divides neither remaining product,
      the exponents of `p` agree and so do the remaining products. */
  lemma ExponentsAgree(p: int, e: nat, e2: nat, a: int, b: int)
    requires IsPrime(p) && a > 0 && b > 0
    requires !Ten.Divides(p, a) && !Ten.Divides(p, b)
    requires a * Pow(p, e) == b * Pow(p, e2)
    ensures e == e2 && a == b
  {
    if e < e2 {
      PowerCancel(p, e, e2, a, b);
      HasFactor(p, e2 - e, b);
    } else if e2 < e {
      PowerCancel(p, e2, e, b, a);
      HasFactor(p, e - e2, a);
    } else {
      PowPositive(p, e);
      MulCancelRight(a, b, Pow(p, e));
    }
  }

  /** Splitting off the last term of a factorisation. */
  lemma DropLast(f: seq<Term>)
    requires PrimeTerms(f) && Increasing(f) && f != []
    ensures var front, t := f[..|f| - 1], f[|f| - 1];
      f == front + [t] && IsFactorisation(TermsProduct(front), front)
      && TermsProduct(front) > 0 && IsPrime(t.base)
      && TermsProduct(f) == TermsProduct(front) * Pow(t.base, t.exp)
      && !Ten.Divides(t.base, TermsProduct(front))
  {
    var front := f[..|f| - 1];
    assert PrimeTerms(front) && Increasing(front);
    TermsProductPositive(front);
    NotDividedByLargerBase(f[|f| - 1].base, front);
  }

  /** The fundamental theorem of arithmetic: a number has one factorisation
      into increasing prime powers. */
  lemma {:induction false} FactorisationUnique(n: int, f: seq<Term>, g: seq<Term>)
    requires IsFactorisation(n, f) && IsFactorisation(n, g)
    ensures f == g
    decreases |f|
  {
    TermsProductPositive(f);
    TermsProductPositive(g);
    if f != [] && g != [] {
      DropLast(f);
      DropLast(g);
      LastBasesAgree(f, g);
      var f0, g0 := f[..|f| - 1], g[..|g| - 1];
      var p := f[|f| - 1].base;
      ExponentsAgree(p, f[|f| - 1].exp, g[|g| - 1].exp, TermsProduct(f0), TermsProduct(g0));
      FactorisationUnique(TermsProduct(f0), f0, g0);
    }
  }

  /** No divisor of `p` in `2 .. hi`, checked one candidate at a time. */
  function NoDivisorUpTo(p: int, hi: int): bool
    decreases hi
  {
    hi < 2 || (p % hi != 0 && NoDivisorUpTo(p, hi - 1))
  }

  lemma {:induction false} NoDivisorUpToSpec(p: int, hi: int)
    requires NoDivisorUpTo(p, hi)
    ensures forall e :: 2 <= e <= hi ==> p % e != 0
    decreases hi
  {
    if hi >= 2 {
      NoDivisorUpToSpec(p, hi - 1);
    }
  }

  lemma Prime467()
    ensures IsPrime(467)
  {
    assert NoDivisorUpTo(467, 22) by {
      assert NoDivisorUpTo(467, 6);
      assert NoDivisorUpTo(467, 11);
      assert NoDivisorUpTo(467, 16);
    }
    NoDivisorUpToSpec(467, 22);
    CofactorIsPrime(467, 22, 467);
  }

  lemma Factorisation2802()
    ensures IsFactorisation(2802, [Term(2, 1), Term(3, 1), Term(467, 1)])
  {
    Prime467();
    assert IsPrime(2) && IsPrime(3);
    var f := [Term(2, 1), Term(3, 1), Term(467, 1)];
    assert f[..2] == [Term(2, 1), Term(3, 1)] && f[..2][..1] == [Term(2, 1)] && [Term(2, 1)][..0] == [];
  }

  lemma Factorisation2028()
    ensures IsFactorisation(2028, [Term(2, 2), Term(3, 1), Term(13, 2)])
  {
    assert NoDivisorUpTo(13, 4);
    NoDivisorUpToSpec(13, 4);
    CofactorIsPrime(13, 4, 13);
    assert IsPrime(2) && IsPrime(3);
    var f := [Term(2, 2), Term(3, 1), Term(13, 2)];
    assert f[..2] == [Term(2, 2), Term(3, 1)] && f[..2][..1] == [Term(2, 2)] && [Term(2, 2)][..0] == [];
  }

  /** The factorisations the tests of `prime_fact` expect; with `PrimeFact`'s
      contract they are what it returns for 2802 and 2028. */
  lemma PrimeFactExamples()
    ensures forall f :: IsFactorisation(2802, f) <==> f == [Term(2, 1), Term(3, 1), Term(467, 1)]
    ensures forall f :: IsFactorisation(2028, f) <==> f == [Term(2, 2), Term(3, 1), Term(13, 2)]
  {
    var f1 := [Term(2, 1), Term(3, 1), Term(467, 1)];
    var f2 := [Term(2, 2), Term(3, 1), Term(13, 2)];
    Factorisation2802();
    Factorisation2028();
    forall f | IsFactorisation(2802, f) ensures f == f1 { FactorisationUnique(2802, f, f1); }
    forall f | IsFactorisation(2028, f) ensures f == f2 { FactorisationUnique(2028, f, f2); }
  }

  // ---------------------------------------------------------------------
  // The harmony of `sim_cycle` (twelve.rs:159-180): the least common
  // multiple through the highest power of every prime
  // ---------------------------------------------------------------------

  /** `m` is a multiple of every period, all of which are positive. */
  predicate CommonMultiple(ps: seq<nat>, m: int)
  {
    forall i :: 0 <= i < |ps| ==> ps[i] > 0 && m % ps[i] == 0
  }

  /** `m` is the least common multiple of `ps`: a positive common multiple
      that divides every positive common multiple. */
  ghost predicate IsLcm(ps: seq<nat>, m: int)
  {
    m > 0 && CommonMultiple(ps, m) && forall c :: c > 0 && CommonMultiple(ps, c) ==> c % m == 0
  }

  lemma LcmUnique(ps: seq<nat>, a: int, b: int)
    requires IsLcm(ps, a) && IsLcm(ps, b)
    ensures a == b
  {
    Ten.DividesBound(a, b);
    Ten.DividesBound(b, a);
  }

  /** The product of `q^h[q]` over the primes `q` in `keys`, in whatever
      order the map is iterated. */
  ghost function PowerProduct(h: map<nat, nat>, keys: set<nat>): int
    requires keys <= h.Keys
    decreases keys
  {
    if keys == {} then 1 else var q :| q in keys; Pow(q, h[q]) * PowerProduct(h, keys - {q})
  }

  /** The product does not depend on the order: any key can come first. */
  lemma {:induction false} PowerProductRemove(h: map<nat, nat>, keys: set<nat>, q: nat)
    requires keys <= h.Keys && q in keys
    ensures PowerProduct(h, keys) == Pow(q, h[q]) * PowerProduct(h, keys - {q})
    decreases |keys|
  {
    var p :| p in keys && PowerProduct(h, keys) == Pow(p, h[p]) * PowerProduct(h, keys - {p});
    if p != q {
      var both := keys - {p} - {q};
      assert keys - {q} - {p} == both;
      PowerProductRemove(h, keys - {p}, q);
      PowerProductRemove(h, keys - {q}, p);
      var a, b, c := Pow(p, h[p]), Pow(q, h[q]), PowerProduct(h, both);
      assert PowerProduct(h, keys) == a * (b * c);
      assert Pow(q, h[q]) * PowerProduct(h, keys - {q}) == b * (a * c);
      MulAssoc(a, b, c);
      MulAssoc(b, a, c);
    }
  }

  /** Every key is a prime. */
  predicate PrimeKeys(keys: set<nat>)
  {
    forall k :: k in keys ==> IsPrime(k)
  }

  lemma {:induction false} PowerProductPositive(h: map<nat, nat>, keys: set<nat>)
    requires keys <= h.Keys && PrimeKeys(keys)
    ensures PowerProduct(h, keys) > 0
    decreases |keys|
  {
    if keys != {} {
      var q :| q in keys;
      PowerProductRemove(h, keys, q);
      PowerProductPositive(h, keys - {q});
      PowPositive(q, h[q]);
      MulAtLeast(Pow(q, h[q]), PowerProduct(h, keys - {q}));
    }
  }

  /** A prime outside `keys` does not divide their power product. */
  lemma {:induction false} PrimeNotDividesPowerProduct(q: int, h: map<nat, nat>, keys: set<nat>)
    requires IsPrime(q) && keys <= h.Keys && q !in keys && PrimeKeys(keys)
    ensures PowerProduct(h, keys) > 0 && !Ten.Divides(q, PowerProduct(h, keys))
    decreases |keys|
  {
    PowerProductPositive(h, keys);
    assert 1 % q == 1;
    if keys != {} {
      var r :| r in keys;
      PowerProductRemove(h, keys, r);
      PrimeNotDividesPowerProduct(q, h, keys - {r});
      PrimeNotDividesPower(q, r, h[r]);
      if Ten.Divides(q, PowerProduct(h, keys)) {
        PrimeEuclid(q, Pow(r, h[r]), PowerProduct(h, keys - {r}));
      }
    }
  }

  /** Powers of distinct primes that each divide `c` divide it together. */
  lemma {:induction false} PrimePowersDivide(h: map<nat, nat>, keys: set<nat>, c: int)
    requires keys <= h.Keys && PrimeKeys(keys) && c > 0
    requires forall k :: k in keys ==> Pow(k, h[k]) > 0 && Ten.Divides(Pow(k, h[k]), c)
    ensures PowerProduct(h, keys) > 0 && Ten.Divides(PowerProduct(h, keys), c)
    decreases |keys|
  {
    PowerProductPositive(h, keys);
    if keys != {} {
      var q :| q in keys;
      var rest := keys - {q};
      PowerProductRemove(h, keys, q);
      PrimePowersDivide(h, rest, c);
      var p := PowerProduct(h, rest);
      PrimeNotDividesPowerProduct(q, h, rest);
      var k := c / p;
      DivExact(p, c);
      PowerDividesCofactor(q, h[q], p, k);
      assert Ten.Divides(p, p) by { MulDiv(p, 1); }
      DividesMul(Pow(q, h[q]), k, p, p);
      assert k * p == c;
    }
  }

  /** Every term of `f` has its base in `h` with at most `h`'s exponent. */
  predicate Covers(h: map<nat, nat>, f: seq<Term>)
  {
    forall i :: 0 <= i < |f| ==> f[i].base in h && f[i].exp <= h[f[i].base]
  }

  lemma CoversGrow(h0: map<nat, nat>, h: map<nat, nat>, f: seq<Term>)
    requires Covers(h0, f)
    requires forall q :: q in h0 ==> q in h && h0[q] <= h[q]
    ensures Covers(h, f)
  {
  }

  /** A factorisation covered by the map divides its power product. */
  lemma {:induction false} CoveredDivides(f: seq<Term>, h: map<nat, nat>, keys: set<nat>)
    requires PrimeTerms(f) && Increasing(f) && keys <= h.Keys && PrimeKeys(keys)
    requires forall i :: 0 <= i < |f| ==> f[i].base in keys && f[i].exp <= h[f[i].base]
    ensures TermsProduct(f) > 0 && PowerProduct(h, keys) > 0
    ensures Ten.Divides(TermsProduct(f), PowerProduct(h, keys))
    decreases |f|
  {
    TermsProductPositive(f);
    PowerProductPositive(h, keys);
    if f == [] {
      MulDiv(1, PowerProduct(h, keys));
    } else {
      DropLast(f);
      var front, t := f[..|f| - 1], f[|f| - 1];
      var rest := keys - {t.base};
      PowerProductRemove(h, keys, t.base);
      CoveredDivides(front, h, rest);
      PowDivides(t.base, t.exp, h[t.base]);
      DividesMul(TermsProduct(front), PowerProduct(h, rest), Pow(t.base, t.exp), Pow(t.base, h[t.base]));
      assert PowerProduct(h, rest) * Pow(t.base, h[t.base]) == PowerProduct(h, keys);
    }
  }

  /** The power of a term divides the product of the terms. */
  lemma {:induction false} TermDivides(f: seq<Term>, k: nat)
    requires PrimeTerms(f) && k < |f|
    ensures Pow(f[k].base, f[k].exp) > 0 && Ten.Divides(Pow(f[k].base, f[k].exp), TermsProduct(f))
  {
    var front, t := f[..|f| - 1], f[|f| - 1];
    assert PrimeTerms(front);
    TermsProductPositive(front);
    PowPositive(f[k].base, f[k].exp);
    if k == |f| - 1 {
      MulDiv(Pow(t.base, t.exp), TermsProduct(front));
    } else {
      assert front[k] == f[k];
      TermDivides(front, k);
      Ten.DividesMultiple(Pow(f[k].base, f[k].exp), TermsProduct(front), Pow(t.base, t.exp));
    }
  }

  /** Some period among the first `upto` is divisible by `q^e`. */
  predicate AttainedBy(ps: seq<nat>, upto: nat, q: nat, e: nat)
  {
    exists j :: 0 <= j < upto && j < |ps| && Pow(q, e) > 0 && ps[j] % Pow(q, e) == 0
  }

  /** The map built from the periods' factorisations gives their least
      common multiple: it covers every factorisation, and every power it
      holds divides some period. */
  lemma HarmonyIsLcm(periods: seq<nat>, facts: seq<seq<Term>>, h: map<nat, nat>)
    requires Harmonised(periods, |periods|, facts, h)
    ensures IsLcm(periods, PowerProduct(h, h.Keys))
  {
    var r := PowerProduct(h, h.Keys);
    assert PrimeKeys(h.Keys);
    PowerProductPositive(h, h.Keys);
    forall j | 0 <= j < |periods|
      ensures periods[j] > 0 && r % periods[j] == 0
    {
      CoveredDivides(facts[j], h, h.Keys);
    }
    forall c | c > 0 && CommonMultiple(periods, c)
      ensures c % r == 0
    {
      forall q | q in h
        ensures Pow(q, h[q]) > 0 && Ten.Divides(Pow(q, h[q]), c)
      {
        var j :| 0 <= j < |periods| && Pow(q, h[q]) > 0 && periods[j] % Pow(q, h[q]) == 0;
        DividesTrans(Pow(q, h[q]), periods[j], c);
      }
      PrimePowersDivide(h, h.Keys, c);
    }
  }

  /** The inner loop of `sim_cycle`: each term of a factorisation raises
      its base's exponent in the map to at least its own. */
  method Merge(h: map<nat, nat>, terms: seq<Term>) returns (r: map<nat, nat>)
    ensures forall q :: q in h ==> q in r && h[q] <= r[q]
    ensures Covers(r, terms)
    ensures forall q :: q in r ==> (q in h && r[q] == h[q]) || Exponent(terms, q, r[q])
  {
    r := h;
    for k := 0 to |terms|
      invariant forall q :: q in h ==> q in r && h[q] <= r[q]
      invariant Covers(r, terms[..k])
      invariant forall q :: q in r ==> (q in h && r[q] == h[q]) || Exponent(terms, q, r[q])
    {
      var t := terms[k];
      if t.base in r {
        if r[t.base] < t.exp {
          r := r[t.base := t.exp];
        }
      } else {
        r := r[t.base := t.exp];
      }
    }
    assert terms[..|terms|] == terms;
  }

  /** Some term of `f` has base `q` and exponent `e`. */
  predicate Exponent(f: seq<Term>, q: nat, e: nat)
  {
    exists k :: 0 <= k < |f| && f[k] == Term(q, e)
  }

  /** After merging the factorisation of period `i`, every power in the map
      still divides one of the periods so far. */
  lemma MergeAttained(periods: seq<nat>, i: nat, terms: seq<Term>, h: map<nat, nat>, r: map<nat, nat>)
    requires i < |periods| && IsFactorisation(periods[i], terms)
    requires forall q :: q in h ==> IsPrime(q) && AttainedBy(periods, i, q, h[q])
    requires forall q :: q in r ==> (q in h && r[q] == h[q]) || Exponent(terms, q, r[q])
    ensures forall q :: q in r ==> IsPrime(q) && AttainedBy(periods, i + 1, q, r[q])
  {
    forall q | q in r
      ensures IsPrime(q) && AttainedBy(periods, i + 1, q, r[q])
    {
      if q in h && r[q] == h[q] {
        var j :| 0 <= j < i && j < |periods| && Pow(q, h[q]) > 0 && periods[j] % Pow(q, h[q]) == 0;
        assert AttainedBy(periods, i + 1, q, r[q]);
      } else {
        var k :| 0 <= k < |terms| && terms[k] == Term(q, r[q]);
        TermDivides(terms, k);
        assert AttainedBy(periods, i + 1, q, r[q]);
      }
    }
  }

  /** The final loop of `sim_cycle`: the product of the map's prime powers,
      taken in whatever order the map yields its keys. */
  method Product(h: map<nat, nat>) returns (product: int)
    ensures product == PowerProduct(h, h.Keys)
  {
    product := 1;
    var todo := h.Keys;
    while todo != {}
      invariant todo <= h.Keys
      invariant product * PowerProduct(h, todo) == PowerProduct(h, h.Keys)
      decreases |todo|
    {
      var q :| q in todo;
      PowerProductRemove(h, todo, q);
      MulAssoc(product, Pow(q, h[q]), PowerProduct(h, todo - {q}));
      product := product * Pow(q, h[q]);
      todo := todo - {q};
    }
  }

  /** What `sim_cycle` has gathered after `i` periods: their factorisations,
      all covered by the map, whose every power divides one of them. */
  ghost predicate Harmonised(periods: seq<nat>, i: nat, facts: seq<seq<Term>>, h: map<nat, nat>)
  {
    |facts| == i <= |periods|
    && (forall j :: 0 <= j < i ==> periods[j] >= 3 && IsFactorisation(periods[j], facts[j]) && Covers(h, facts[j]))
    && (forall q :: q in h ==> IsPrime(q) && AttainedBy(periods, i, q, h[q]))
  }

  lemma HarmonyStep(periods: seq<nat>, i: nat, facts: seq<seq<Term>>, terms: seq<Term>, h: map<nat, nat>, r: map<nat, nat>)
    requires Harmonised(periods, i, facts, h) && i < |periods|
    requires periods[i] >= 3 && IsFactorisation(periods[i], terms)
    requires forall q :: q in h ==> q in r && h[q] <= r[q]
    requires Covers(r, terms)
    requires forall q :: q in r ==> (q in h && r[q] == h[q]) || Exponent(terms, q, r[q])
    ensures Harmonised(periods, i + 1, facts + [terms], r)
  {
    MergeAttained(periods, i, terms, h, r);
    forall j | 0 <= j < i
      ensures Covers(r, facts[j])
    {
      CoversGrow(h, r, facts[j]);
    }
  }

  /** The harmony loops of `sim_cycle`: factorise every period, keep the
      highest exponent of every prime, and multiply the prime powers.  A
      period below 3 makes `prime_fact` reach `unreachable!`. */
  method Harmony(periods: seq<nat>) returns (r: Result<nat>)
    ensures r.Ok? <==> forall i :: 0 <= i < |periods| ==> periods[i] >= 3
    ensures r.Ok? ==> IsLcm(periods, r.value)
    ensures !r.Ok? ==> r == Err(Unreachable)
  {
    var h: map<nat, nat> := map[];
    ghost var facts: seq<seq<Term>> := [];
    for i := 0 to |periods|
      invariant Harmonised(periods, i, facts, h)
    {
      var pf := PrimeFact(periods[i]);
      if !pf.Ok? {
        return Err(Unreachable);
      }
      var terms := pf.value;
      ghost var h0 := h;
      h := Merge(h, terms);
      HarmonyStep(periods, i, facts, terms, h0, h);
      facts := facts + [terms];
    }
    var product := Product(h);
    HarmonyIsLcm(periods, facts, h);
    return Ok(product);
  }

  /** The prime powers of the periods 18, 28 and 44. */
  function ExampleHarmony(): map<nat, nat>
  {
    map[2 := 2, 3 := 2, 7 := 1, 11 := 1]
  }

  lemma ExampleHarmonyPrimes()
    ensures ExampleHarmony().Keys == {2, 3, 7, 11} && PrimeKeys(ExampleHarmony().Keys)
  {
    assert NoDivisorUpTo(11, 10) && NoDivisorUpTo(7, 6);
    NoDivisorUpToSpec(11, 10);
    NoDivisorUpToSpec(7, 6);
    assert IsPrime(2) && IsPrime(3) && IsPrime(7) && IsPrime(11);
  }

  lemma ExampleHarmonyProduct()
    ensures PowerProduct(ExampleHarmony(), ExampleHarmony().Keys) == 2772
  {
    var h := ExampleHarmony();
    assert h.Keys == {2, 3, 7, 11};
    PowerProductRemove(h, {2, 3, 7, 11}, 2);
    PowerProductRemove(h, {3, 7, 11}, 3);
    PowerProductRemove(h, {7, 11}, 7);
    PowerProductRemove(h, {11}, 11);
    assert {2, 3, 7, 11} - {2} == {3, 7, 11} && {3, 7, 11} - {3} == {7, 11};
    assert {7, 11} - {7} == {11} && {11} - {11} == {};
  }

  /** Every positive common multiple of 18, 28 and 44 is one of 2772. */
  lemma ExampleLeast(c: int)
    requires c > 0 && CommonMultiple([18, 28, 44], c)
    ensures c % 2772 == 0
  {
    var ps: seq<nat> := [18, 28, 44];
    var h := ExampleHarmony();
    assert ps[0] == 18 && ps[1] == 28 && ps[2] == 44;
    assert c % 18 == 0 && c % 28 == 0 && c % 44 == 0;
    DividesTrans(4, 28, c);
    DividesTrans(9, 18, c);
    DividesTrans(7, 28, c);
    DividesTrans(11, 44, c);
    ExampleHarmonyPrimes();
    ExampleHarmonyProduct();
    assert forall k :: k in h.Keys ==> Pow(k, h[k]) > 0 && Ten.Divides(Pow(k, h[k]), c);
    PrimePowersDivide(h, h.Keys, c);
  }

  /** The periods of the second example, 18, 28 and 44, have the least
      common multiple 2772, and no other. */
  lemma HarmonyExample()
    ensures IsLcm([18, 28, 44], 2772)
    ensures forall m :: IsLcm([18, 28, 44], m) ==> m == 2772
  {
    var ps: seq<nat> := [18, 28, 44];
    forall c | c > 0 && CommonMultiple(ps, c)
      ensures c % 2772 == 0
    {
      ExampleLeast(c);
    }
    assert CommonMultiple(ps, 2772);
    forall m | IsLcm(ps, m)
      ensures m == 2772
    {
      LcmUnique(ps, m, 2772);
    }
  }

  // ---------------------------------------------------------------------
  // `to_axis` and `find_periods` (twelve.rs:122-157)
  // ---------------------------------------------------------------------

  /** The state of one axis: every body's position and velocity on it, in
      turn. */
  function AxisState(bs: seq<Body>, axis: nat): (r: seq<int>)
    requires axis < 3
    ensures |r| == 2 * |bs|
  {
    if bs == [] then [] else AxisState(bs[..|bs| - 1], axis) + [bs[|bs| - 1].pos[axis], bs[|bs| - 1].vel[axis]]
  }

  /** Body `k`'s position and velocity sit at `2k` and `2k+1`. */
  lemma {:induction false} AxisStateAt(bs: seq<Body>, axis: nat)
    requires axis < 3
    ensures forall k :: 0 <= k < |bs| ==>
      AxisState(bs, axis)[2 * k] == bs[k].pos[axis] && AxisState(bs, axis)[2 * k + 1] == bs[k].vel[axis]
  {
    if bs != [] {
      var front := bs[..|bs| - 1];
      AxisStateAt(front, axis);
      assert forall k :: 0 <= k < |front| ==> front[k] == bs[k];
    }
  }

  /** Two systems of the same size have the same axis state exactly when
      every body agrees on that axis in position and velocity. */
  lemma AxisStateEqual(bs: seq<Body>, cs: seq<Body>, axis: nat)
    requires axis < 3 && |bs| == |cs|
    ensures AxisState(bs, axis) == AxisState(cs, axis)
      <==> forall k :: 0 <= k < |bs| ==> bs[k].pos[axis] == cs[k].pos[axis] && bs[k].vel[axis] == cs[k].vel[axis]
  {
    var r, q := AxisState(bs, axis), AxisState(cs, axis);
    AxisStateAt(bs, axis);
    AxisStateAt(cs, axis);
    if forall k :: 0 <= k < |bs| ==> bs[k].pos[axis] == cs[k].pos[axis] && bs[k].vel[axis] == cs[k].vel[axis] {
      forall i | 0 <= i < |r|
        ensures r[i] == q[i]
      {
        var k := i / 2;
        if i % 2 == 0 {
          assert i == 2 * k;
          assert r[2 * k] == bs[k].pos[axis] && q[2 * k] == cs[k].pos[axis];
        } else {
          assert i == 2 * k + 1;
          assert r[2 * k + 1] == bs[k].vel[axis] && q[2 * k + 1] == cs[k].vel[axis];
        }
      }
    }
  }

  /** `to_axis`. */
  method ToAxis(bodies: array<Body>, axis: nat) returns (r: seq<int>)
    requires axis < 3
    ensures r == AxisState(bodies[..], axis)
  {
    r := [];
    for k := 0 to bodies.Length
      invariant r == AxisState(bodies[..k], axis)
    {
      assert bodies[..k + 1][..k] == bodies[..k];
      r := r + [bodies[k].pos[axis], bodies[k].vel[axis]];
    }
    assert bodies[..bodies.Length] == bodies[..];
  }

  /** After `c` steps the axis is back where it started. */
  predicate Repeats(bs: seq<Body>, axis: nat, c: nat)
    requires axis < 3
  {
    AxisState(Steps(bs, c), axis) == AxisState(bs, axis)
  }

  /** `p` is the first positive number of steps after which the axis is
      back where it started. */
  predicate IsPeriod(bs: seq<Body>, axis: nat, p: nat)
    requires axis < 3
  {
    p >= 1 && Repeats(bs, axis, p) && forall c :: 1 <= c < p ==> !Repeats(bs, axis, c)
  }

  /** The axis is not back at its initial state within `fuel` steps. */
  predicate NeverRepeats(bs: seq<Body>, axis: nat, fuel: nat)
    requires axis < 3
  {
    forall c :: 1 <= c <= fuel ==> !Repeats(bs, axis, c)
  }

  lemma NeverRepeatsNext(bs: seq<Body>, axis: nat, n: nat)
    requires axis < 3 && NeverRepeats(bs, axis, n) && !Repeats(bs, axis, n + 1)
    ensures NeverRepeats(bs, axis, n + 1)
  {
  }

  lemma FirstRepeat(bs: seq<Body>, axis: nat, n: nat)
    requires axis < 3 && n >= 1 && NeverRepeats(bs, axis, n - 1) && Repeats(bs, axis, n)
    ensures IsPeriod(bs, axis, n)
  {
  }

  /** Comparing the axis state after `n` steps with the initial one. */
  lemma CheckAxis(bs: seq<Body>, axis: nat, n: nat, cur: seq<int>, start: seq<int>)
    requires axis < 3 && n >= 1 && NeverRepeats(bs, axis, n - 1)
    requires cur == AxisState(Steps(bs, n), axis) && start == AxisState(bs, axis)
    ensures cur == start ==> IsPeriod(bs, axis, n)
    ensures cur != start ==> NeverRepeats(bs, axis, n)
  {
    if cur == start {
      FirstRepeat(bs, axis, n);
    } else {
      NeverRepeatsNext(bs, axis, n - 1);
    }
  }

  /** While the axes of step `n` are being checked: every axis whose period
      is still unknown has not repeated, up to step `n` for the axes already
      checked and up to step `n - 1` for the others; every recorded period
      is that axis' period. */
  predicate Tracking(bs: seq<Body>, ps: seq<nat>, n: nat, upto: nat)
    requires |ps| == 3 && n >= 1
  {
    forall a :: 0 <= a < 3 ==>
      (ps[a] == 0 ==> NeverRepeats(bs, a, if a < upto then n else n - 1))
      && (ps[a] > 0 ==> ps[a] <= n && IsPeriod(bs, a, ps[a]))
  }

  lemma TrackingStart(bs: seq<Body>, ps: seq<nat>, n: nat)
    requires |ps| == 3 && n >= 1 && Known(bs, ps, n - 1)
    ensures Tracking(bs, ps, n, 0)
  {
  }

  lemma TrackingNext(bs: seq<Body>, ps: seq<nat>, qs: seq<nat>, n: nat, axis: nat)
    requires |ps| == 3 && |qs| == 3 && n >= 1 && axis < 3
    requires Tracking(bs, ps, n, axis)
    requires forall a :: 0 <= a < 3 && a != axis ==> qs[a] == ps[a]
    requires qs[axis] == 0 ==> NeverRepeats(bs, axis, n)
    requires qs[axis] > 0 ==> qs[axis] <= n && IsPeriod(bs, axis, qs[axis])
    ensures Tracking(bs, qs, n, axis + 1)
  {
  }

  lemma TrackingDone(bs: seq<Body>, ps: seq<nat>, n: nat)
    requires |ps| == 3 && n >= 1 && Tracking(bs, ps, n, 3)
    ensures Known(bs, ps, n)
  {
  }

  lemma PeriodUnique(bs: seq<Body>, axis: nat, p: nat, q: nat)
    requires axis < 3 && IsPeriod(bs, axis, p) && IsPeriod(bs, axis, q)
    ensures p == q
  {
  }

  /** The axis states `find_periods` starts from. */
  method InitialAxes(state: array<Body>) returns (init: seq<seq<int>>)
    ensures |init| == 3 && forall a :: 0 <= a < 3 ==> init[a] == AxisState(state[..], a)
  {
    init := [];
    for axis := 0 to 3
      invariant |init| == axis && forall a :: 0 <= a < axis ==> init[a] == AxisState(state[..], a)
    {
      var t := ToAxis(state, axis);
      init := init + [t];
    }
  }

  /** One round of `find_periods`' axis loop: every axis whose period is
      still unknown is compared with its initial state after `counter` steps. */
  method CheckAxes(bodies: seq<Body>, state: array<Body>, init: seq<seq<int>>, periods: seq<nat>, counter: nat)
    returns (ps: seq<nat>)
    requires |init| == 3 && forall a :: 0 <= a < 3 ==> init[a] == AxisState(bodies, a)
    requires |periods| == 3 && counter >= 1 && state[..] == Steps(bodies, counter)
    requires Known(bodies, periods, counter - 1)
    ensures |ps| == 3 && Known(bodies, ps, counter)
    ensures forall a :: 0 <= a < 3 && periods[a] > 0 ==> ps[a] == periods[a]
  {
    ps := periods;
    TrackingStart(bodies, ps, counter);
    for axis := 0 to 3
      invariant |ps| == 3
      invariant Tracking(bodies, ps, counter, axis)
      invariant forall a :: 0 <= a < 3 && periods[a] > 0 ==> ps[a] == periods[a]
    {
      ghost var before := ps;
      if ps[axis] == 0 {
        var cur := ToAxis(state, axis);
        CheckAxis(bodies, axis, counter, cur, init[axis]);
        if cur == init[axis] {
          ps := ps[axis := counter];
        }
      }
      TrackingNext(bodies, before, ps, counter, axis);
    }
    TrackingDone(bodies, ps, counter);
  }

  /** After `n` steps: an axis whose period is still 0 has not repeated,
      and a recorded one is that axis' period. */
  predicate Known(bs: seq<Body>, ps: seq<nat>, n: nat)
    requires |ps| == 3
  {
    forall a :: 0 <= a < 3 ==> (ps[a] == 0 ==> NeverRepeats(bs, a, n)) && (ps[a] > 0 ==> ps[a] <= n && IsPeriod(bs, a, ps[a]))
  }

  lemma KnownAll(bs: seq<Body>, ps: seq<nat>, n: nat)
    requires |ps| == 3 && ps[0] > 0 && ps[1] > 0 && ps[2] > 0 && Known(bs, ps, n)
    ensures ArePeriods(bs, ps) && forall a :: 0 <= a < 3 ==> ps[a] <= n
  {
    forall a | 0 <= a < 3
      ensures IsPeriod(bs, a, ps[a]) && ps[a] <= n
    {
      assert ps[a] > 0 by {
        if a == 0 {} else if a == 1 {} else {}
      }
    }
  }

  lemma KnownNone(bs: seq<Body>, ps: seq<nat>, n: nat)
    requires |ps| == 3 && !(ps[0] > 0 && ps[1] > 0 && ps[2] > 0) && Known(bs, ps, n)
    ensures exists a :: 0 <= a < 3 && NeverRepeats(bs, a, n)
  {
    var a := if ps[0] == 0 then 0 else if ps[1] == 0 then 1 else 2;
    assert NeverRepeats(bs, a, n);
  }

  /** `ps` holds the period of each of the three axes. */
  predicate ArePeriods(bs: seq<Body>, ps: seq<nat>)
  {
    |ps| == 3 && forall a :: 0 <= a < 3 ==> IsPeriod(bs, a, ps[a])
  }

  /** A period below 3 is 1 or 2. */
  lemma ShortPeriod(bs: seq<Body>, ps: seq<nat>)
    requires ArePeriods(bs, ps) && !(forall i :: 0 <= i < |ps| ==> ps[i] >= 3)
    ensures exists a :: 0 <= a < 3 && (IsPeriod(bs, a, 1) || IsPeriod(bs, a, 2))
  {
    var a :| 0 <= a < 3 && ps[a] < 3;
    assert IsPeriod(bs, a, ps[a]);
  }

  /** `find_periods`: steps the system, and the first time an axis whose
      period is still 0 is back at its initial state, records the step
      count, never to change it again; it stops once all three are known.
      The source's loop has no bound: after `fuel` steps the model gives up. */
  method FindPeriods(bodies: seq<Body>, fuel: nat) returns (r: Result<seq<nat>>)
    ensures r.Ok? ==> ArePeriods(bodies, r.value) && forall a :: 0 <= a < 3 ==> r.value[a] <= fuel
    ensures !r.Ok? ==> (r == OutOfFuel && exists a :: 0 <= a < 3 && NeverRepeats(bodies, a, fuel))
  {
    var state := Load(bodies);
    var init := InitialAxes(state);
    var periods: seq<nat> := [0, 0, 0];
    var counter: nat := 0;
    while true
      invariant counter <= fuel && |periods| == 3
      invariant state[..] == Steps(bodies, counter)
      invariant !(periods[0] > 0 && periods[1] > 0 && periods[2] > 0)
      invariant Known(bodies, periods, counter)
      decreases fuel - counter
    {
      if counter == fuel {
        KnownNone(bodies, periods, counter);
        return OutOfFuel;
      }
      counter := counter + 1;
      Advance(state);
      periods := CheckAxes(bodies, state, init, periods, counter);
      if periods[0] > 0 && periods[1] > 0 && periods[2] > 0 {
        KnownAll(bodies, periods, counter);
        return Ok(periods);
      }
    }
  }

  /** `sim_cycle`: the periods of the three axes and their least common
      multiple. */
  method SimCycle(bodies: seq<Body>, fuel: nat) returns (r: Result<nat>)
    ensures r.Ok? ==> exists ps :: ArePeriods(bodies, ps) && IsLcm(ps, r.value)
    ensures r.Err? ==> r.error == Unreachable && exists a :: 0 <= a < 3 && (IsPeriod(bodies, a, 1) || IsPeriod(bodies, a, 2))
    ensures r.OutOfFuel? ==> exists a :: 0 <= a < 3 && NeverRepeats(bodies, a, fuel)
  {
    var periods := FindPeriods(bodies, fuel);
    if !periods.Ok? {
      return OutOfFuel;
    }
    var ps := periods.value;
    r := Harmony(ps);
    if r.Err? {
      ShortPeriod(bodies, ps);
    }
  }

  // ---------------------------------------------------------------------
  // `twelve_a`, `twelve_b` (twelve.rs:182-196)
  // ---------------------------------------------------------------------

  /** Part one: the total energy after 1000 steps of the bodies the lines
      describe. */
  method TwelveA(lines: seq<string>) returns (r: Result<int>)
    ensures Locations(lines).Ok? ==> r == Ok(TotalEnergy(Steps(Locations(lines).value, 1000)))
    ensures !Locations(lines).Ok? ==> r == Locations(lines).PropagateFailure()
  {
    var bodies :- ReadLocations(lines);
    var e := Sim(bodies, 1000);
    return Ok(e);
  }

  /** Part two: the least common multiple of the axis periods of the bodies
      the lines describe. */
  method TwelveB(lines: seq<string>, fuel: nat) returns (r: Result<nat>)
    ensures !Locations(lines).Ok? ==> r == Locations(lines).PropagateFailure()
    ensures r.Ok? ==> (Locations(lines).Ok?
      && exists ps :: ArePeriods(Locations(lines).value, ps) && IsLcm(ps, r.value))
    ensures r.OutOfFuel? && Locations(lines).Ok? ==>
      exists a :: 0 <= a < 3 && NeverRepeats(Locations(lines).value, a, fuel)
  {
    var bodies :- ReadLocations(lines);
    r := SimCycle(bodies, fuel);
  }
}
