/**
 * Day 10 (src/ten.rs): asteroids on a grid, the line of sight from one to
 * another along the reduced slope between them, and the best spot to
 * watch from.
 */
module Ten {
  import opened Wrappers
  import opened IntMath
  import opened Points

  // ---------------------------------------------------------------------
  // Divisibility and the subtraction gcd

  /** `d` divides `n` (for a positive `d`). */
  predicate Divides(d: int, n: int)
    requires d > 0
  {
    n % d == 0
  }

  lemma DividesAdd(d: int, x: int, y: int)
    requires d > 0 && Divides(d, x) && Divides(d, y)
    ensures Divides(d, x + y) && Divides(d, x - y) && Divides(d, -x)
  {
    var a, b := x / d, y / d;
    assert x == d * a && y == d * b;
    assert x + y == d * (a + b);
    assert x - y == d * (a - b);
    assert -x == d * -a;
    MulDiv(d, a + b);
    MulDiv(d, a - b);
    MulDiv(d, -a);
  }

  lemma DividesBound(d: int, x: int)
    requires d > 0 && x > 0 && Divides(d, x)
    ensures d <= x
  {
    assert x == d * (x / d);
    MulAtLeast(d, x / d);
  }

  /** `d` divides `n * k` when it divides `n`. */
  lemma DividesMultiple(d: int, n: int, k: int)
    requires d > 0 && Divides(d, n)
    ensures Divides(d, n * k)
  {
    var a := n / d;
    assert n == d * a;
    assert n * k == d * (a * k);
    MulDiv(d, a * k);
  }

  /** `d * h` divides `d * n` when `h` divides `n`. */
  lemma DividesScaled(d: int, h: int, n: int)
    requires d > 0 && h > 0 && Divides(h, n)
    ensures d * h > 0 && Divides(d * h, d * n)
  {
    var a := n / h;
    assert n == h * a;
    assert d * n == (d * h) * a;
    MulAtLeast(d, h);
    MulDiv(d * h, a);
  }

  /** `gcd`: replaces the larger argument by the difference until both are
      equal.  It ends only for positive arguments. */
  function Gcd(x: int, y: int): (g: int)
    requires x > 0 && y > 0
    ensures g > 0
    decreases x + y
  {
    if x == y then x
    else Gcd(if x < y then x else y, Abs(x - y))
  }

  /** The result divides both arguments. */
  lemma {:induction false} GcdDivides(x: int, y: int)
    requires x > 0 && y > 0
    ensures Divides(Gcd(x, y), x) && Divides(Gcd(x, y), y)
    decreases x + y
  {
    if x != y {
      var m := if x < y then x else y;
      GcdDivides(m, Abs(x - y));
      DividesAdd(Gcd(x, y), m, Abs(x - y));
    }
  }

  /** Every common divisor divides the result, so it is the greatest. */
  lemma {:induction false} GcdGreatest(x: int, y: int, d: int)
    requires x > 0 && y > 0 && d > 0 && Divides(d, x) && Divides(d, y)
    ensures Divides(d, Gcd(x, y)) && d <= Gcd(x, y)
    decreases x + y
  {
    if x != y {
      var m := if x < y then x else y;
      DividesAdd(d, x, y);
      DividesAdd(d, y, x);
      GcdGreatest(m, Abs(x - y), d);
    } else {
      DividesBound(d, x);
    }
  }

  /** If `d` divides both `a * k` and `b * k`, it divides `gcd(a, b) * k`. */
  lemma {:induction false} GcdScaled(a: int, b: int, d: int, k: int)
    requires a > 0 && b > 0 && d > 0 && Divides(d, a * k) && Divides(d, b * k)
    ensures Divides(d, Gcd(a, b) * k)
    decreases a + b
  {
    if a != b {
      var m := if a < b then a else b;
      DividesAdd(d, a * k, b * k);
      DividesAdd(d, b * k, a * k);
      assert Abs(a - b) * k == if a < b then b * k - a * k else a * k - b * k;
      GcdScaled(m, Abs(a - b), d, k);
    }
  }

  /** Euclid's lemma: a divisor of `y * k` coprime to `y` divides `k`. */
  lemma Euclid(d: int, y: int, k: int)
    requires d > 0 && y > 0 && Gcd(d, y) == 1 && Divides(d, y * k)
    ensures Divides(d, k)
  {
    MulDiv(d, k);
    GcdScaled(d, y, d, k);
  }

  /** One divides everything: `gcd(1, n) == 1`. */
  lemma GcdOne(n: int)
    requires n > 0
    ensures Gcd(1, n) == 1 && Gcd(n, 1) == 1
  {
    GcdDivides(1, n);
    DividesBound(Gcd(1, n), 1);
    GcdDivides(n, 1);
    DividesBound(Gcd(n, 1), 1);
  }

  // ---------------------------------------------------------------------
  // Slopes (`Rational`)

  /** `reduce`'s error value, -1. */
  const NotReducible: string := "-1"
  /** The panic of `unwrap` on that error. */
  const UnwrapErr: string := "called `Result::unwrap()` on an `Err` value: -1"

  /** What `reduce` makes of `num/den`: 0/0 is an error; a zero component
      leaves the sign of the other; a component equal to 1 leaves the pair
      alone; otherwise both are divided by the gcd of their magnitudes,
      keeping their signs. */
  function Reduced(num: int, den: int): (r: Result<(int, int)>)
    ensures r.Ok? <==> !(num == 0 && den == 0)
    ensures r.Ok? ==> r.value != (0, 0)
  {
    if num == 0 && den == 0 then Err(NotReducible)
    else if num == 0 then Ok((0, Sign(den)))
    else if den == 0 then Ok((Sign(num), 0))
    else if num == 1 || den == 1 then Ok((num, den))
    else
      var g := Gcd(Abs(num), Abs(den));
      assert Quot(num, g) != 0 by {
        GcdDivides(Abs(num), Abs(den));
        DividesBound(g, Abs(num));
        QuotRemSpec(num, g);
      }
      Ok((Quot(num, g), Quot(den, g)))
  }

  /** The factor `reduce` divides out. */
  function Scale(num: int, den: int): (g: int)
    requires !(num == 0 && den == 0)
    ensures g > 0
  {
    if num == 0 then Abs(den)
    else if den == 0 then Abs(num)
    else if num == 1 || den == 1 then 1
    else Gcd(Abs(num), Abs(den))
  }

  /** A direction in lowest terms: not zero, and the magnitudes of its
      components have no common divisor but 1. */
  predicate Primitive(a: int, b: int)
  {
    && !(a == 0 && b == 0)
    && (a == 0 ==> Abs(b) == 1)
    && (b == 0 ==> Abs(a) == 1)
    && (a != 0 && b != 0 ==> Gcd(Abs(a), Abs(b)) == 1)
  }

  /** `Quot` is exact on a multiple. */
  lemma QuotExact(a: int, g: int)
    requires g > 0 && Divides(g, Abs(a))
    ensures a == g * Quot(a, g) && Abs(Quot(a, g)) == Abs(a) / g && Sign(Quot(a, g)) == Sign(a)
  {
    QuotRemSpec(a, g);
    var q := Abs(a) / g;
    assert Abs(a) == g * q;
    if a < 0 {
      assert Quot(a, g) == -q;
    }
    if a != 0 {
      DividesBound(g, Abs(a));
      assert q >= 1;
    }
  }

  /** Dividing two magnitudes by their gcd leaves no common divisor. */
  lemma CoprimeAfterGcd(a: int, b: int, n: int, d: int)
    requires a > 0 && b > 0 && n > 0 && d > 0
    requires a == Gcd(a, b) * n && b == Gcd(a, b) * d
    ensures Gcd(n, d) == 1
  {
    var g := Gcd(a, b);
    var h := Gcd(n, d);
    GcdDivides(n, d);
    DividesScaled(g, h, n);
    DividesScaled(g, h, d);
    GcdGreatest(a, b, g * h);
    if h > 1 {
      MulMonotone(2, h, g);
    }
  }

  /** The general case of `reduce`: both components divided by the gcd. */
  lemma ReducedByGcd(num: int, den: int)
    requires num != 0 && den != 0
    ensures var g := Gcd(Abs(num), Abs(den));
      && num == g * Quot(num, g) && den == g * Quot(den, g)
      && Sign(Quot(num, g)) == Sign(num) && Sign(Quot(den, g)) == Sign(den)
      && Gcd(Abs(Quot(num, g)), Abs(Quot(den, g))) == 1
  {
    var a, b := Abs(num), Abs(den);
    var g := Gcd(a, b);
    GcdDivides(a, b);
    QuotExact(num, g);
    QuotExact(den, g);
    var n, d := Abs(Quot(num, g)), Abs(Quot(den, g));
    assert a == g * n by { assert n == a / g; }
    assert b == g * d by { assert d == b / g; }
    CoprimeAfterGcd(a, b, n, d);
  }

  /** Reducing a direction scales it down to lowest terms: the pair is
      `Scale` times the result, the signs are kept, and the result is
      primitive. */
  lemma ReducedSpec(num: int, den: int)
    requires !(num == 0 && den == 0)
    ensures var (n, d) := Reduced(num, den).value;
      && num == Scale(num, den) * n && den == Scale(num, den) * d
      && Sign(n) == Sign(num) && Sign(d) == Sign(den)
      && Primitive(n, d)
  {
    if num == 0 || den == 0 {
    } else if num == 1 || den == 1 {
      GcdOne(Abs(num));
      GcdOne(Abs(den));
    } else {
      ReducedByGcd(num, den);
    }
  }

  /** Reversing a direction reverses its reduction, by the same factor. */
  lemma ReducedNeg(num: int, den: int)
    requires !(num == 0 && den == 0)
    ensures Reduced(-num, -den).value == (-Reduced(num, den).value.0, -Reduced(num, den).value.1)
    ensures Scale(-num, -den) == Scale(num, den)
  {
    if num != 0 && den != 0 {
      if Abs(num) == 1 || Abs(den) == 1 {
        ReducedUnit(num, den);
        ReducedUnit(-num, -den);
      } else {
        var g := Gcd(Abs(num), Abs(den));
        assert Gcd(Abs(-num), Abs(-den)) == g;
        QuotNeg(num, g);
        QuotNeg(den, g);
      }
    }
  }

  /** With a component of magnitude 1 the reduction keeps the direction. */
  lemma ReducedUnit(num: int, den: int)
    requires num != 0 && den != 0 && (Abs(num) == 1 || Abs(den) == 1)
    ensures Reduced(num, den) == Ok((num, den)) && Scale(num, den) == 1
  {
    if !(num == 1 || den == 1) {
      var g := Gcd(Abs(num), Abs(den));
      if Abs(num) == 1 {
        GcdOne(Abs(den));
      } else {
        GcdOne(Abs(num));
      }
      assert g == 1;
      QuotOne(num);
      QuotOne(den);
    }
  }

  lemma QuotNeg(a: int, b: int)
    requires b != 0
    ensures Quot(-a, b) == -Quot(a, b)
  {
    var q := Abs(a) / Abs(b);
    assert Abs(-a) == Abs(a);
    assert Abs(-a) / Abs(b) == q;
    if a == 0 {
      assert q == 0;
    }
  }

  lemma QuotOne(a: int)
    ensures Quot(a, 1) == a
  {
  }


  /** The cases of the source's `reduce` test. */
  lemma ReducedExamples()
    ensures Reduced(2, 4) == Ok((1, 2))
    ensures Reduced(2, 0) == Ok((1, 0))
    ensures Reduced(-2, 0) == Ok((-1, 0))
    ensures Reduced(-1, 5) == Ok((-1, 5))
    ensures Reduced(0, 0) == Err(NotReducible)
  {
    assert Gcd(2, 4) == 2;
    assert Gcd(1, 5) == 1;
  }

  /** `Rational`: a slope `num/den` reduced in place. */
  class Rational {
    var num: int
    var den: int

    constructor (num: int, den: int)
      ensures this.num == num && this.den == den
    {
      this.num := num;
      this.den := den;
    }

    /** `reduce`: on success the pair becomes `Reduced` of the old pair; on
        0/0 it stays as it is. */
    method Reduce() returns (r: Result<()>)
      modifies this
      ensures r.Ok? <==> !(old(num) == 0 && old(den) == 0)
      ensures r.Ok? ==> (num, den) == Reduced(old(num), old(den)).value
      ensures !r.Ok? ==> r == Err(NotReducible) && num == old(num) && den == old(den)
    {
      if num == 0 && den == 0 {
        return Err(NotReducible);
      }
      if num == 0 {
        den := Quot(den, Abs(den));
        return Ok(());
      }
      if den == 0 {
        num := Quot(num, Abs(num));
        return Ok(());
      }
      if num == 1 || den == 1 {
        return Ok(());
      }
      var numNeg := num < 0;
      var denNeg := den < 0;
      num := Abs(num);
      den := Abs(den);
      var g := Gcd(num, den);
      if numNeg {
        num := num * -1;
      }
      if denNeg {
        den := den * -1;
      }
      num := Quot(num, g);
      den := Quot(den, g);
      r := Ok(());
    }
  }

  // ---------------------------------------------------------------------
  // Lines of sight (`ob`, `is_between`, `can_see`)

  /** `ob`: outside the grid.  The bounds themselves count as inside. */
  predicate Ob(p: Point, xdim: int, ydim: int)
  {
    p.x > xdim || p.y > ydim || p.x < 0 || p.y < 0
  }

  /** `is_between`: `center` is nearer to `a` than `b` is, on one axis.
      Meaningful for three points on a line. */
  predicate IsBetween(center: Point, a: Point, b: Point)
  {
    Abs(center.x - a.x) < Abs(b.x - a.x) || Abs(center.y - a.y) < Abs(b.y - a.y)
  }

  /** The cases of the source's `is_between` test. */
  lemma IsBetweenExamples()
    ensures !IsBetween(Point(0, 0), Point(1, 0), Point(2, 0))
    ensures !IsBetween(Point(2, 0), Point(0, 0), Point(1, 0))
    ensures IsBetween(Point(1, 0), Point(0, 0), Point(2, 0))
    ensures !IsBetween(Point(0, 1), Point(0, 2), Point(0, 3))
    ensures !IsBetween(Point(0, 3), Point(0, 1), Point(0, 2))
    ensures IsBetween(Point(0, 2), Point(0, 1), Point(0, 3))
    ensures !IsBetween(Point(0, 0), Point(1, 1), Point(2, 2))
    ensures !IsBetween(Point(2, 2), Point(0, 0), Point(1, 1))
    ensures IsBetween(Point(1, 1), Point(0, 0), Point(2, 2))
  {
  }

  /** `p` moved `i` times by `s`. */
  function Along(p: Point, s: Point, i: int): Point
  {
    Point(p.x + s.x * i, p.y + s.y * i)
  }

  lemma AlongStep(p: Point, s: Point, i: int)
    ensures Along(p, s, i + 1) == Point(Along(p, s, i).x + s.x, Along(p, s, i).y + s.y)
  {
    assert s.x * (i + 1) == s.x * i + s.x;
    assert s.y * (i + 1) == s.y * i + s.y;
  }

  /** How far the walk from `c` by `s` can still go before leaving the
      grid, along the first axis on which `s` moves. */
  function Room(c: Point, s: Point, xdim: int, ydim: int): nat
  {
    var r := if s.x > 0 then xdim + 1 - c.x
      else if s.x < 0 then c.x + 1
      else if s.y > 0 then ydim + 1 - c.y
      else c.y + 1;
    if r < 0 then 0 else r
  }

  /** The walk of `can_see` from its `i`-th point `p + i * s`: leaving the
      grid ends it with false; at the first asteroid it ends with true if
      the offset `i * s` equals `q`, and otherwise with whether that
      asteroid is not between `p` and `q`. */
  function Walk(p: Point, q: Point, s: Point, locs: set<Point>, xdim: int, ydim: int, i: int): bool
    requires s != Point(0, 0) && i >= 1
    decreases Room(Along(p, s, i), s, xdim, ydim)
  {
    var c := Along(p, s, i);
    if Ob(c, xdim, ydim) then false
    else if c in locs then
      if Point(s.x * i, s.y * i) == q then true else !IsBetween(c, p, q)
    else
      AlongStep(p, s, i);
      Walk(p, q, s, locs, xdim, ydim, i + 1)
  }

  /** `can_see`: walks from `p` along the reduced slope towards `q`; equal
      points make the reduction, and so the `unwrap`, fail. */
  function Sees(p: Point, q: Point, locs: set<Point>, xdim: int, ydim: int): (r: Result<bool>)
    ensures r.Ok? <==> p != q
    ensures !r.Ok? ==> r == Err(UnwrapErr)
  {
    var slope := Reduced(q.x - p.x, q.y - p.y);
    if !slope.Ok? then Err(UnwrapErr)
    else Ok(Walk(p, q, Point(slope.value.0, slope.value.1), locs, xdim, ydim, 1))
  }

  /** `can_see`, with the reduction done on a `Rational` and the walk as a
      loop. */
  method CanSee(p: Point, q: Point, locations: set<Point>, xdim: int, ydim: int) returns (r: Result<bool>)
    ensures r == Sees(p, q, locations, xdim, ydim)
  {
    var slope := new Rational(q.x - p.x, q.y - p.y);
    var reduced := slope.Reduce();
    if !reduced.Ok? {
      return Err(UnwrapErr);
    }
    var s := Point(slope.num, slope.den);
    var checkPoint := s;
    var i := 1;
    while true
      invariant i >= 1 && checkPoint == Point(s.x * i, s.y * i)
      invariant Walk(p, q, s, locations, xdim, ydim, i) == Walk(p, q, s, locations, xdim, ydim, 1)
      decreases Room(Along(p, s, i), s, xdim, ydim)
    {
      var realPoint := Point(checkPoint.x + p.x, checkPoint.y + p.y);
      assert realPoint == Along(p, s, i);
      if Ob(realPoint, xdim, ydim) {
        return Ok(false);
      }
      if realPoint in locations {
        if checkPoint == q {
          return Ok(true);
        }
        if IsBetween(realPoint, p, q) {
          return Ok(false);
        } else {
          return Ok(true);
        }
      }
      AlongStep(p, s, i);
      i := i + 1;
      checkPoint := Point(s.x * i, s.y * i);
    }
  }

  // ---------------------------------------------------------------------
  // What `can_see` decides

  /** `v` lies between `a` and `b`, ends included. */
  predicate Within(v: int, a: int, b: int)
  {
    (a <= v && v <= b) || (b <= v && v <= a)
  }

  lemma AbsMul(a: int, b: int)
    ensures Abs(a * b) == Abs(a) * Abs(b)
  {
    if a < 0 && b < 0 {
      assert a * b == (-a) * (-b);
    } else if a < 0 {
      assert a * b == -((-a) * b);
      MulMonotone(0, -a, b);
    } else if b < 0 {
      assert a * b == -(a * (-b));
      MulMonotone(0, a, -b);
    } else {
      MulMonotone(0, a, b);
    }
  }

  /** `a * i` runs from 0 to `a * g` as `i` runs from 0 to `g`. */
  lemma ScaledWithin(a: int, i: int, g: int)
    requires 0 <= i <= g
    ensures Within(a * i, 0, a * g)
  {
    if a >= 0 {
      MulMonotone(i, g, a);
      MulMonotone(0, i, a);
    } else {
      MulMonotone(i, g, -a);
      MulMonotone(0, i, -a);
      assert a * i == -(i * (-a)) && a * g == -(g * (-a));
    }
  }

  /** Conversely, `a * k` between 0 and `a * g` puts `k` between 0 and `g`. */
  lemma WithinScaled(a: int, k: int, g: int)
    requires a != 0 && g > 0 && Within(a * k, 0, a * g)
    ensures 0 <= k <= g
  {
    var b := Abs(a);
    assert Within(b * k, 0, b * g) by {
      if a < 0 {
        assert b * k == -(a * k) && b * g == -(a * g);
      }
    }
    MulAtLeast(b, g);
    assert b * k == -(b * (-k));
    assert b * k == b * g + b * (k - g);
    if k < 0 {
      MulAtLeast(b, -k);
    }
    if k > g {
      MulAtLeast(b, k - g);
    }
  }

  /** From `b * i < b * g` or its failure on a positive factor. */
  lemma ScaledLess(b: int, i: int, g: int)
    requires b > 0
    ensures b * i < b * g <==> i < g
  {
    if i < g {
      MulAtLeast(b, g - i);
      assert b * g == b * i + b * (g - i);
    } else {
      MulMonotone(g, i, b);
    }
  }

  lemma MulCancel(a: int, i: int, j: int)
    requires a != 0 && a * i == a * j
    ensures i == j
  {
    assert a * (i - j) == 0;
    if i != j {
      AbsMul(a, i - j);
      MulAtLeast(Abs(a), Abs(i - j));
    }
  }

  /** Every point of the walk up to the `g`-th lies between `p` and the
      `g`-th point on both axes, so it is in the grid when both ends are. */
  lemma AlongInGrid(p: Point, s: Point, i: int, g: int, xdim: int, ydim: int)
    requires 0 <= i <= g
    ensures Within(Along(p, s, i).x, p.x, Along(p, s, g).x)
    ensures Within(Along(p, s, i).y, p.y, Along(p, s, g).y)
    ensures !Ob(p, xdim, ydim) && !Ob(Along(p, s, g), xdim, ydim) ==> !Ob(Along(p, s, i), xdim, ydim)
  {
    ScaledWithin(s.x, i, g);
    ScaledWithin(s.y, i, g);
  }

  /** On the walk from `p` towards its `g`-th point, `is_between` holds
      exactly for the points before it. */
  lemma BetweenOnWalk(p: Point, s: Point, i: int, g: int)
    requires s != Point(0, 0) && 0 <= i && 0 <= g
    ensures IsBetween(Along(p, s, i), p, Along(p, s, g)) <==> i < g
  {
    AbsMul(s.x, i);
    AbsMul(s.x, g);
    AbsMul(s.y, i);
    AbsMul(s.y, g);
    assert Along(p, s, i).x - p.x == s.x * i && Along(p, s, g).x - p.x == s.x * g;
    assert Along(p, s, i).y - p.y == s.y * i && Along(p, s, g).y - p.y == s.y * g;
    if s.x != 0 {
      ScaledLess(Abs(s.x), i, g);
    } else if i >= g {
      MulMonotone(g, i, Abs(s.y));
    }
    if s.y != 0 {
      ScaledLess(Abs(s.y), i, g);
    } else if i >= g {
      MulMonotone(g, i, Abs(s.x));
    }
  }

  /** Between two points with non-negative coordinates the offset `i * s`
      is never the far point itself, so `can_see`'s comparison of the
      offset with `q` decides nothing there. */
  lemma OffsetIsNotTarget(p: Point, s: Point, i: int, g: int)
    requires s != Point(0, 0) && 1 <= i < g
    requires p.x >= 0 && p.y >= 0 && Along(p, s, g).x >= 0 && Along(p, s, g).y >= 0
    ensures Point(s.x * i, s.y * i) != Along(p, s, g)
  {
    if s.x * i == p.x + s.x * g && s.y * i == p.y + s.y * g {
      assert s.x * g == s.x * i + s.x * (g - i) && s.y * g == s.y * i + s.y * (g - i);
      assert s.x * i == -((-s.x) * i) && s.y * i == -((-s.y) * i);
      if s.x > 0 {
        MulAtLeast(s.x, g - i);
      } else if s.x < 0 {
        MulAtLeast(-s.x, i);
      }
      if s.y > 0 {
        MulAtLeast(s.y, g - i);
      } else if s.y < 0 {
        MulAtLeast(-s.y, i);
      }
    }
  }

  /** The walk from its `i`-th point up to the `g`-th, which is an asteroid
      `q` in the grid, answers whether none of the points from the `i`-th
      to just before `q` is an asteroid. */
  lemma {:induction false} WalkClear(p: Point, q: Point, s: Point, locs: set<Point>, xdim: int, ydim: int, i: int, g: int)
    requires s != Point(0, 0) && 1 <= i <= g && q == Along(p, s, g)
    requires !Ob(p, xdim, ydim) && !Ob(q, xdim, ydim) && q in locs
    ensures Walk(p, q, s, locs, xdim, ydim, i) <==> forall j :: i <= j < g ==> Along(p, s, j) !in locs
    decreases g - i
  {
    var c := Along(p, s, i);
    AlongInGrid(p, s, i, g, xdim, ydim);
    if c in locs {
      if i < g {
        OffsetIsNotTarget(p, s, i, g);
        BetweenOnWalk(p, s, i, g);
      } else {
        BetweenOnWalk(p, s, g, g);
      }
    } else {
      assert i < g;
      AlongStep(p, s, i);
      WalkClear(p, q, s, locs, xdim, ydim, i + 1, g);
    }
  }

  /** No asteroid lies on the walk from `p` strictly before `q`. */
  ghost predicate Clear(p: Point, q: Point, locs: set<Point>)
    requires p != q
  {
    var s := Reduced(q.x - p.x, q.y - p.y).value;
    forall i :: 1 <= i < Scale(q.x - p.x, q.y - p.y) ==> Along(p, Point(s.0, s.1), i) !in locs
  }

  /** The far end is the `Scale`-th point of the walk. */
  lemma WalkReaches(p: Point, q: Point)
    requires p != q
    ensures var s := Reduced(q.x - p.x, q.y - p.y).value;
      q == Along(p, Point(s.0, s.1), Scale(q.x - p.x, q.y - p.y))
  {
    var dx, dy := q.x - p.x, q.y - p.y;
    var (n, d) := Reduced(dx, dy).value;
    var g := Scale(dx, dy);
    ReducedSpec(dx, dy);
    assert dx == g * n && dy == g * d;
    assert n * g == g * n && d * g == g * d;
  }

  /** For two asteroids in the grid, `can_see` answers whether the walk
      between them is clear. */
  lemma SeesClear(p: Point, q: Point, locs: set<Point>, xdim: int, ydim: int)
    requires p != q && !Ob(p, xdim, ydim) && !Ob(q, xdim, ydim) && q in locs
    ensures Sees(p, q, locs, xdim, ydim) == Ok(Clear(p, q, locs))
  {
    var s := Reduced(q.x - p.x, q.y - p.y).value;
    WalkReaches(p, q);
    WalkClear(p, q, Point(s.0, s.1), locs, xdim, ydim, 1, Scale(q.x - p.x, q.y - p.y));
  }

  // ---------------------------------------------------------------------
  // The same, stated on the segment between the two asteroids

  /** `c` lies on the segment from `p` to `q`: on their line and within
      their bounding box. */
  predicate OnSegment(c: Point, p: Point, q: Point)
  {
    && (c.x - p.x) * (q.y - p.y) == (c.y - p.y) * (q.x - p.x)
    && Within(c.x, p.x, q.x) && Within(c.y, p.y, q.y)
  }

  lemma MulZero(a: int, i: int)
    ensures a * i == 0 <==> a == 0 || i == 0
  {
    if a != 0 && i != 0 {
      AbsMul(a, i);
      MulAtLeast(Abs(a), Abs(i));
    }
  }

  lemma MulEq(a: int, i: int, j: int)
    ensures a * i == a * j <==> a == 0 || i == j
  {
    assert a * i - a * j == a * (i - j);
    MulZero(a, i - j);
  }

  /** A point of the walk before the far end is on the segment and is
      neither end of it. */
  lemma WalkPointOnSegment(p: Point, s: Point, i: int, g: int)
    requires s != Point(0, 0) && 1 <= i < g
    ensures var c := Along(p, s, i);
      OnSegment(c, p, Along(p, s, g)) && c != p && c != Along(p, s, g)
  {
    var c := Along(p, s, i);
    AlongInGrid(p, s, i, g, 0, 0);
    assert (s.x * i) * (s.y * g) == (s.y * i) * (s.x * g);
    MulZero(s.x, i);
    MulZero(s.y, i);
    MulEq(s.x, i, g);
    MulEq(s.y, i, g);
  }

  /** `n` divides `v * n == u * d` and is coprime to `d`, so it divides
      `u`. */
  lemma CoprimeDivides(n: int, d: int, u: int, v: int)
    requires n != 0 && d != 0 && Gcd(Abs(n), Abs(d)) == 1 && u * d == v * n
    ensures Divides(Abs(n), Abs(u))
  {
    var an, ad, au, av := Abs(n), Abs(d), Abs(u), Abs(v);
    AbsMul(u, d);
    AbsMul(v, n);
    assert au * ad == av * an;
    assert ad * au == an * av;
    MulDiv(an, av);
    assert Divides(an, ad * au);
    Euclid(an, ad, au);
  }

  /** A multiple of `|n|` is a multiple of `n`. */
  lemma SignedMultiple(n: int, u: int) returns (k: int)
    requires n != 0 && Divides(Abs(n), Abs(u))
    ensures u == n * k
  {
    QuotExact(u, Abs(n));
    var m := Quot(u, Abs(n));
    k := if n > 0 then m else -m;
    assert n * k == Abs(n) * m;
  }

  /** The case of `MultipleOfPrimitive` with both components non-zero. */
  lemma CoprimeMultiple(n: int, d: int, u: int, v: int) returns (k: int)
    requires n != 0 && d != 0 && Gcd(Abs(n), Abs(d)) == 1 && u * d == v * n
    ensures u == n * k && v == d * k
  {
    CoprimeDivides(n, d, u, v);
    k := SignedMultiple(n, u);
    CancelFactor(n, k, d, u, v);
  }

  /** From `u == n * k` and `u * d == v * n`, cancel `n`. */
  lemma CancelFactor(n: int, k: int, d: int, u: int, v: int)
    requires n != 0 && u == n * k && u * d == v * n
    ensures v == d * k
  {
    assert n * v == n * (k * d) by {
      assert u * d == (n * k) * d;
      assert (n * k) * d == n * (k * d);
      assert v * n == n * v;
    }
    MulEq(n, v, k * d);
    assert k * d == d * k;
  }

  /** A vector `(u, v)` parallel to a primitive direction `(n, d)` is a
      whole multiple of it. */
  lemma MultipleOfPrimitive(n: int, d: int, u: int, v: int) returns (k: int)
    requires Primitive(n, d) && u * d == v * n
    ensures u == n * k && v == d * k
  {
    if n == 0 {
      MulZero(u, d);
      k := v * d;
      assert d * d == 1;
      assert d * k == (d * d) * v;
    } else if d == 0 {
      MulZero(v, n);
      k := u * n;
      assert n * n == 1;
      assert n * k == (n * n) * u;
    } else {
      k := CoprimeMultiple(n, d, u, v);
    }
  }

  /** Parallel to `g` times a direction is parallel to the direction. */
  lemma CrossScaled(u: int, v: int, n: int, d: int, g: int)
    requires g > 0 && u * (g * d) == v * (g * n)
    ensures u * d == v * n
  {
    assert u * (g * d) == g * (u * d);
    assert v * (g * n) == g * (v * n);
    MulEq(g, u * d, v * n);
  }

  /** A lattice point strictly inside the segment is a point of the walk
      before the far end: the reduced slope is primitive, so every lattice
      point on the line is a whole multiple of it away from `p`. */
  lemma SegmentPointOnWalk(p: Point, q: Point, c: Point) returns (k: int)
    requires p != q && OnSegment(c, p, q) && c != p && c != q
    ensures var s := Reduced(q.x - p.x, q.y - p.y).value;
      1 <= k < Scale(q.x - p.x, q.y - p.y) && c == Along(p, Point(s.0, s.1), k)
  {
    var dx, dy := q.x - p.x, q.y - p.y;
    var (n, d) := Reduced(dx, dy).value;
    var g := Scale(dx, dy);
    ReducedSpec(dx, dy);
    var u, v := c.x - p.x, c.y - p.y;
    CrossScaled(u, v, n, d, g);
    k := MultipleOfPrimitive(n, d, u, v);
    assert dx == n * g && dy == d * g;
    if n != 0 {
      WithinScaled(n, k, g);
    } else {
      WithinScaled(d, k, g);
    }
    assert k == 0 ==> c == p;
    assert k == g ==> c == q;
  }

  /** The walk between two points is clear exactly when no asteroid other
      than the two lies on the segment between them. */
  lemma ClearIffUnblocked(p: Point, q: Point, locs: set<Point>)
    requires p != q
    ensures Clear(p, q, locs) <==> forall c :: c in locs && c != p && c != q ==> !OnSegment(c, p, q)
  {
    var (n, d) := Reduced(q.x - p.x, q.y - p.y).value;
    var g := Scale(q.x - p.x, q.y - p.y);
    var s := Point(n, d);
    if Clear(p, q, locs) {
      forall c | c in locs && c != p && c != q ensures !OnSegment(c, p, q) {
        if OnSegment(c, p, q) {
          var k := SegmentPointOnWalk(p, q, c);
        }
      }
    } else {
      var i :| 1 <= i < g && Along(p, s, i) in locs;
      WalkReaches(p, q);
      WalkPointOnSegment(p, s, i, g);
    }
  }

  /** The segment is the same from either end. */
  lemma OnSegmentSymmetric(c: Point, p: Point, q: Point)
    ensures OnSegment(c, p, q) <==> OnSegment(c, q, p)
  {
    var ux, uy, wx, wy := c.x - p.x, c.y - p.y, q.x - p.x, q.y - p.y;
    assert (c.x - q.x) * (p.y - q.y) == (ux - wx) * -wy;
    assert (c.y - q.y) * (p.x - q.x) == (uy - wy) * -wx;
    assert (ux - wx) * -wy - (uy - wy) * -wx == -(ux * wy - uy * wx);
  }

  /** Visibility between two asteroids in the grid does not depend on
      which one looks: `ten_a` may record one answer for both. */
  lemma SeesSymmetric(p: Point, q: Point, locs: set<Point>, xdim: int, ydim: int)
    requires p != q && p in locs && q in locs && !Ob(p, xdim, ydim) && !Ob(q, xdim, ydim)
    ensures Sees(p, q, locs, xdim, ydim) == Sees(q, p, locs, xdim, ydim)
  {
    SeesClear(p, q, locs, xdim, ydim);
    SeesClear(q, p, locs, xdim, ydim);
    ClearIffUnblocked(p, q, locs);
    ClearIffUnblocked(q, p, locs);
    forall c ensures OnSegment(c, p, q) <==> OnSegment(c, q, p) {
      OnSegmentSymmetric(c, p, q);
    }
  }

  // ---------------------------------------------------------------------
  // The best spot (`ten_a`)

  /** Is there an asteroid at `pt` of the map?  Row `y` is line `y`,
      column `x` its `x`-th character. */
  predicate IsAsteroid(lines: seq<string>, pt: Point)
  {
    0 <= pt.y < |lines| && 0 <= pt.x < |lines[pt.y]| && lines[pt.y][pt.x] == '#'
  }

  function Asteroids(lines: seq<string>): (locs: set<Point>)
    ensures forall pt :: pt in locs <==> IsAsteroid(lines, pt)
  {
    set y, x | 0 <= y < |lines| && 0 <= x < |lines[y]| && lines[y][x] == '#' :: Point(x, y)
  }

  /** The grid's width, the length of the first line. */
  function Width(lines: seq<string>): nat
  {
    if lines == [] then 0 else |lines[0]|
  }

  /** The first loop of `ten_a`: the asteroids, the width of the first
      line and the number of lines. */
  method ReadMap(lines: seq<string>) returns (locations: set<Point>, xdim: nat, ydim: nat)
    ensures locations == Asteroids(lines) && xdim == Width(lines) && ydim == |lines|
  {
    locations := {};
    xdim := 0;
    ydim := 0;
    for y := 0 to |lines|
      invariant ydim == y && xdim == (if y == 0 then 0 else Width(lines))
      invariant forall pt :: pt in locations <==> IsAsteroid(lines, pt) && pt.y < y
    {
      ydim := ydim + 1;
      var line := lines[y];
      for x := 0 to |line|
        invariant xdim == (if y == 0 then x else Width(lines))
        invariant forall pt :: pt in locations <==> IsAsteroid(lines, pt) && (pt.y < y || (pt.y == y && pt.x < x))
      {
        if y == 0 {
          xdim := xdim + 1;
        }
        if line[x] == '#' {
          locations := locations + {Point(x, y)};
        }
      }
    }
  }

  /** The asteroids that `p` sees. */
  ghost function Visible(locs: set<Point>, xdim: int, ydim: int, p: Point): set<Point>
  {
    set q | q in locs && q != p && Sees(p, q, locs, xdim, ydim) == Ok(true)
  }

  /** Visibility between asteroids does not depend on who looks. */
  ghost predicate Symmetric(locs: set<Point>, xdim: int, ydim: int)
  {
    forall a, b :: a in locs && b in locs && a != b ==> Sees(a, b, locs, xdim, ydim) == Sees(b, a, locs, xdim, ydim)
  }

  /** On a map whose lines are no longer than the first, every asteroid
      is in the grid, so visibility is symmetric. */
  lemma MapSymmetric(lines: seq<string>)
    requires forall y :: 0 <= y < |lines| ==> |lines[y]| <= Width(lines)
    ensures Symmetric(Asteroids(lines), Width(lines), |lines|)
  {
    var locs := Asteroids(lines);
    forall a, b | a in locs && b in locs && a != b
      ensures Sees(a, b, locs, Width(lines), |lines|) == Sees(b, a, locs, Width(lines), |lines|)
    {
      SeesSymmetric(a, b, locs, Width(lines), |lines|);
    }
  }

  function CountOf(counts: map<Point, nat>, p: Point): nat
  {
    if p in counts then counts[p] else 0
  }

  /** The asteroids recorded as seen from `x`. */
  ghost function SeenBy(rel: map<(Point, Point), bool>, locs: set<Point>, x: Point): set<Point>
  {
    set y | y in locs && (x, y) in rel && rel[(x, y)]
  }

  /** `relations` holds answers for pairs of distinct asteroids, each pair
      in both orders; when visibility is symmetric they are the answers of
      `can_see`. */
  ghost predicate Related(rel: map<(Point, Point), bool>, locs: set<Point>, xdim: int, ydim: int, sym: bool)
  {
    forall a, b :: (a, b) in rel ==>
      && a in locs && b in locs && a != b && (b, a) in rel
      && (sym ==> rel[(a, b)] == Sees(a, b, locs, xdim, ydim).value)
  }

  /** `viz_counts` counts, for each asteroid, the recorded pairs in which
      it sees the other; it has no zero entries. */
  ghost predicate Tally(rel: map<(Point, Point), bool>, counts: map<Point, nat>, locs: set<Point>)
  {
    && (forall x :: x in counts ==> x in locs && CountOf(counts, x) >= 1)
    && (forall x :: x in locs ==> CountOf(counts, x) == |SeenBy(rel, locs, x)|)
  }

  /** `viz_counts` after a visible pair: one more for each. */
  function Bump(counts: map<Point, nat>, p: Point): (r: map<Point, nat>)
    ensures r.Keys == counts.Keys + {p} && CountOf(r, p) == CountOf(counts, p) + 1
    ensures forall x :: x != p ==> CountOf(r, x) == CountOf(counts, x)
  {
    counts[p := CountOf(counts, p) + 1]
  }

  /** What recording a new pair changes in what each asteroid is seen to
      see. */
  lemma SeenAfterRecord(rel: map<(Point, Point), bool>, locs: set<Point>, p: Point, q: Point, v: bool, x: Point)
    requires p in locs && q in locs && p != q
    ensures var rel' := rel[(p, q) := v][(q, p) := v];
      SeenBy(rel', locs, x) ==
        if x == p then SeenBy(rel, locs, x) - {q} + (if v then {q} else {})
        else if x == q then SeenBy(rel, locs, x) - {p} + (if v then {p} else {})
        else SeenBy(rel, locs, x)
  {
    var rel' := rel[(p, q) := v][(q, p) := v];
    if x == p {
      assert forall y :: (x, y) in rel' && (x, y) != (p, q) ==> (x, y) in rel && rel'[(x, y)] == rel[(x, y)];
    } else if x == q {
      assert forall y :: (x, y) in rel' && (x, y) != (q, p) ==> (x, y) in rel && rel'[(x, y)] == rel[(x, y)];
    } else {
      assert forall y :: (x, y) in rel' ==> (x, y) in rel && rel'[(x, y)] == rel[(x, y)];
    }
  }

  /** Every asteroid with an entry in `counts` has a positive count. */
  ghost predicate Positive(counts: map<Point, nat>, locs: set<Point>)
  {
    forall x :: x in counts ==> x in locs && CountOf(counts, x) >= 1
  }

  lemma BumpPositive(counts: map<Point, nat>, locs: set<Point>, p: Point)
    requires Positive(counts, locs) && p in locs
    ensures Positive(Bump(counts, p), locs)
  {
  }

  /** The count of one asteroid after recording. */
  lemma RecordCountAt(rel: map<(Point, Point), bool>, counts: map<Point, nat>, locs: set<Point>, p: Point, q: Point, v: bool, x: Point)
    requires CountOf(counts, x) == |SeenBy(rel, locs, x)|
    requires p in locs && q in locs && p != q && (p, q) !in rel && (q, p) !in rel
    ensures var counts' := if v then Bump(Bump(counts, p), q) else counts;
      CountOf(counts', x) == |SeenBy(rel[(p, q) := v][(q, p) := v], locs, x)|
  {
    var sx := SeenBy(rel, locs, x);
    SeenAfterRecord(rel, locs, p, q, v, x);
    if x == p {
      assert q !in sx;
      CountOneMore(v, sx, q);
      if v {
        assert CountOf(Bump(Bump(counts, p), q), p) == CountOf(counts, p) + 1;
      }
    } else if x == q {
      assert p !in sx;
      CountOneMore(v, sx, p);
      if v {
        assert CountOf(Bump(counts, p), q) == CountOf(counts, q);
      }
    } else if v {
      assert CountOf(Bump(Bump(counts, p), q), x) == CountOf(counts, x);
    }
  }

  /** Adding `y`, which is not in `s`, to the set adds one to its size. */
  lemma CountOneMore(v: bool, s: set<Point>, y: Point)
    requires y !in s
    ensures |s - {y} + (if v then {y} else {})| == |s| + (if v then 1 else 0)
  {
    assert s - {y} == s;
  }

  /** The counts after recording, for each asteroid. */
  lemma RecordCounts(rel: map<(Point, Point), bool>, counts: map<Point, nat>, locs: set<Point>, p: Point, q: Point, v: bool)
    requires forall x :: x in locs ==> CountOf(counts, x) == |SeenBy(rel, locs, x)|
    requires p in locs && q in locs && p != q && (p, q) !in rel && (q, p) !in rel
    ensures var counts' := if v then Bump(Bump(counts, p), q) else counts;
      forall x :: x in locs ==> CountOf(counts', x) == |SeenBy(rel[(p, q) := v][(q, p) := v], locs, x)|
  {
    forall x | x in locs
      ensures CountOf(if v then Bump(Bump(counts, p), q) else counts, x) == |SeenBy(rel[(p, q) := v][(q, p) := v], locs, x)|
    {
      RecordCountAt(rel, counts, locs, p, q, v, x);
    }
  }

  /** Recording a new pair in both orders keeps the tally. */
  lemma RecordPair(rel: map<(Point, Point), bool>, counts: map<Point, nat>, locs: set<Point>, p: Point, q: Point, v: bool)
    requires Tally(rel, counts, locs) && p in locs && q in locs && p != q
    requires (p, q) !in rel && (q, p) !in rel
    ensures Tally(rel[(p, q) := v][(q, p) := v], if v then Bump(Bump(counts, p), q) else counts, locs)
  {
    assert Positive(counts, locs);
    if v {
      BumpPositive(counts, locs, p);
      BumpPositive(Bump(counts, p), locs, q);
    }
    RecordCounts(rel, counts, locs, p, q, v);
  }

  /** Recording a pair with an answer of `can_see` keeps the relation's
      shape. */
  lemma RelatedRecord(rel: map<(Point, Point), bool>, locs: set<Point>, xdim: int, ydim: int, sym: bool, p: Point, q: Point, v: bool)
    requires Related(rel, locs, xdim, ydim, sym) && p in locs && q in locs && p != q
    requires sym == Symmetric(locs, xdim, ydim) && v == Sees(p, q, locs, xdim, ydim).value
    ensures Related(rel[(p, q) := v][(q, p) := v], locs, xdim, ydim, sym)
  {
    if sym {
      assert Sees(q, p, locs, xdim, ydim) == Sees(p, q, locs, xdim, ydim);
    }
  }

  /** The inner loop of `ten_a` for one asteroid `p`: every pair `(p, q)`
      not yet recorded is decided by `can_see` and recorded both ways. */
  method RecordFrom(p: Point, locations: set<Point>, xdim: int, ydim: int, rel0: map<(Point, Point), bool>, counts0: map<Point, nat>, ghost sym: bool)
      returns (rel: map<(Point, Point), bool>, counts: map<Point, nat>)
    requires p in locations && sym == Symmetric(locations, xdim, ydim)
    requires Related(rel0, locations, xdim, ydim, sym) && Tally(rel0, counts0, locations)
    ensures Related(rel, locations, xdim, ydim, sym) && Tally(rel, counts, locations)
    ensures rel0.Keys <= rel.Keys
    ensures forall q :: q in locations && q != p ==> (p, q) in rel
  {
    rel, counts := rel0, counts0;
    var inner := locations;
    while inner != {}
      invariant inner <= locations
      invariant Related(rel, locations, xdim, ydim, sym) && Tally(rel, counts, locations)
      invariant rel0.Keys <= rel.Keys
      invariant forall q :: q in locations && q !in inner && q != p ==> (p, q) in rel
      decreases inner
    {
      var q :| q in inner;
      inner := inner - {q};
      if p == q {
        continue;
      }
      if (q, p) in rel {
        continue;
      }
      var v := CanSee(p, q, locations, xdim, ydim);
      assert v.Ok?;
      RecordPair(rel, counts, locations, p, q, v.value);
      RelatedRecord(rel, locations, xdim, ydim, sym, p, q, v.value);
      rel := rel[(p, q) := v.value][(q, p) := v.value];
      if v.value {
        counts := Bump(Bump(counts, p), q);
      }
    }
  }

  /** The largest value, `count_vec.sort_unstable()` and its last entry. */
  method Largest(values: set<nat>) returns (m: nat)
    requires values != {}
    ensures m in values && forall v :: v in values ==> v <= m
  {
    var v0 :| v0 in values;
    m := v0;
    var todo := values - {v0};
    while todo != {}
      invariant todo <= values && m in values
      invariant forall v :: v in values && v !in todo ==> v <= m
      decreases todo
    {
      var v :| v in todo;
      todo := todo - {v};
      if v > m {
        m := v;
      }
    }
  }

  /** `ten_a`: the most asteroids any asteroid sees.  When no asteroid
      sees another the final indexing underflows.  Whenever visibility is
      symmetric (as on any map whose lines are no longer than the first) the
      answer is the largest number of asteroids visible from one of them,
      whatever order the sets are walked in. */
  method TenA(lines: seq<string>) returns (r: Result<nat>)
    ensures !r.Ok? ==> r == Err(SubtractOverflow)
    ensures r.Ok? ==> r.value >= 1
    ensures var locs, xdim, ydim := Asteroids(lines), Width(lines), |lines|;
      Symmetric(locs, xdim, ydim) ==>
        && (r.Ok? <==> exists p :: p in locs && Visible(locs, xdim, ydim, p) != {})
        && (r.Ok? ==> (exists p :: p in locs && |Visible(locs, xdim, ydim, p)| == r.value)
                      && forall p :: p in locs ==> |Visible(locs, xdim, ydim, p)| <= r.value)
  {
    var locations, xdim, ydim := ReadMap(lines);
    ghost var sym := Symmetric(locations, xdim, ydim);
    var rel, counts := Survey(locations, xdim, ydim, sym);
    if counts == map[] {
      assert forall x :: x in locations ==> SeenBy(rel, locations, x) == {};
      return Err(SubtractOverflow);
    }
    var x0 :| x0 in counts;
    assert counts[x0] in counts.Values;
    var m := Largest(counts.Values);
    var best :| best in counts && counts[best] == m;
    assert CountOf(counts, best) == m;
    forall x | x in locations ensures CountOf(counts, x) <= m {
      if x in counts {
        assert counts[x] in counts.Values;
      }
    }
    r := Ok(m);
  }

  /** The nested loops of `ten_a`: every pair of distinct asteroids gets
      a recorded answer, and `viz_counts` tallies them; when visibility is
      symmetric each asteroid's recorded set is the set it can see. */
  method Survey(locations: set<Point>, xdim: nat, ydim: nat, ghost sym: bool)
      returns (rel: map<(Point, Point), bool>, counts: map<Point, nat>)
    requires sym == Symmetric(locations, xdim, ydim)
    ensures Tally(rel, counts, locations)
    ensures sym ==> forall x :: x in locations ==> SeenBy(rel, locations, x) == Visible(locations, xdim, ydim, x)
  {
    rel := map[];
    counts := map[];
    var outer := locations;
    while outer != {}
      invariant outer <= locations
      invariant Related(rel, locations, xdim, ydim, sym) && Tally(rel, counts, locations)
      invariant forall a, b :: a in locations && a !in outer && b in locations && a != b ==> (a, b) in rel
      decreases outer
    {
      var p :| p in outer;
      outer := outer - {p};
      rel, counts := RecordFrom(p, locations, xdim, ydim, rel, counts, sym);
    }
    if sym {
      forall x | x in locations ensures SeenBy(rel, locations, x) == Visible(locations, xdim, ydim, x) {
      }
    }
  }

  /** The first map of the source's `ten_a` test, ".#.\n.#.\n.#.". */
  const Column: seq<string> := [".#.", ".#.", ".#."]

  lemma ColumnAsteroids()
    ensures Asteroids(Column) == {Point(1, 0), Point(1, 1), Point(1, 2)}
  {
    forall pt ensures IsAsteroid(Column, pt) <==> pt in {Point(1, 0), Point(1, 1), Point(1, 2)} {
      if 0 <= pt.y < 3 && 0 <= pt.x < 3 {
        assert Column[pt.y] == ".#.";
      }
    }
  }

  /** Looking along the column, neighbours see each other. */
  lemma ColumnNeighbours(locs: set<Point>)
    requires locs == {Point(1, 0), Point(1, 1), Point(1, 2)}
    ensures Sees(Point(1, 0), Point(1, 1), locs, 3, 3) == Ok(true)
    ensures Sees(Point(1, 2), Point(1, 1), locs, 3, 3) == Ok(true)
    ensures Sees(Point(1, 1), Point(1, 0), locs, 3, 3) == Ok(true)
    ensures Sees(Point(1, 1), Point(1, 2), locs, 3, 3) == Ok(true)
  {
    var a, b, c := Point(1, 0), Point(1, 1), Point(1, 2);
    SeesClear(b, a, locs, 3, 3);
    SeesClear(b, c, locs, 3, 3);
    SeesClear(a, b, locs, 3, 3);
    SeesClear(c, b, locs, 3, 3);
  }

  /** The middle hides the ends from each other. */
  lemma ColumnEnds(locs: set<Point>)
    requires locs == {Point(1, 0), Point(1, 1), Point(1, 2)}
    ensures Sees(Point(1, 0), Point(1, 2), locs, 3, 3) == Ok(false)
    ensures Sees(Point(1, 2), Point(1, 0), locs, 3, 3) == Ok(false)
  {
    var a, b, c := Point(1, 0), Point(1, 1), Point(1, 2);
    SeesClear(a, c, locs, 3, 3);
    SeesClear(c, a, locs, 3, 3);
    assert Along(a, Point(0, 1), 1) == b;
    assert Along(c, Point(0, -1), 1) == b;
  }

  /** Three asteroids in a row, the middle one hiding the ends from each
      other: the middle sees two, the ends one each. */
  lemma ThreeInARow(locs: set<Point>, xdim: int, ydim: int, a: Point, b: Point, c: Point)
    requires locs == {a, b, c} && a != b && b != c && a != c
    requires Sees(a, b, locs, xdim, ydim) == Ok(true) && Sees(b, a, locs, xdim, ydim) == Ok(true)
    requires Sees(c, b, locs, xdim, ydim) == Ok(true) && Sees(b, c, locs, xdim, ydim) == Ok(true)
    requires Sees(a, c, locs, xdim, ydim) == Ok(false) && Sees(c, a, locs, xdim, ydim) == Ok(false)
    ensures |Visible(locs, xdim, ydim, b)| == 2
    ensures forall p :: p in locs ==> |Visible(locs, xdim, ydim, p)| <= 2
  {
    assert Visible(locs, xdim, ydim, b) == {a, c};
    assert Visible(locs, xdim, ydim, a) == {b};
    assert Visible(locs, xdim, ydim, c) == {b};
  }

  /** On that map the middle asteroid sees both others and each end only
      the middle, so `ten_a` answers 2. */
  lemma TenAExample()
    ensures var locs := Asteroids(Column);
      && Symmetric(locs, Width(Column), |Column|)
      && |Visible(locs, Width(Column), |Column|, Point(1, 1))| == 2
      && forall p :: p in locs ==> |Visible(locs, Width(Column), |Column|, p)| <= 2
  {
    ColumnAsteroids();
    MapSymmetric(Column);
    assert Width(Column) == 3 && |Column| == 3;
    ColumnNeighbours(Asteroids(Column));
    ColumnEnds(Asteroids(Column));
    ThreeInARow(Asteroids(Column), 3, 3, Point(1, 0), Point(1, 1), Point(1, 2));
  }
}
