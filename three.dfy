/**
 * Day 3 (src/three.rs): two wires leave the origin of a grid, each a
 * comma-separated list of segments such as `R8` (a direction letter and
 * a length).  Part one wants the crossing nearest the origin by
 * Manhattan distance.  `Point`, its moves and its order are the ones of
 * the `Points` module.
 */
module Three {
  import opened Wrappers
  import opened Text
  import opened Points

  /** The panic of `Result::unwrap()` on a failed parse. */
  const UnwrapErr: string := "called `Result::unwrap()` on an `Err` value"
  /** The panic of `str::split_at(1)` on an empty segment. */
  const SliceError: string := "byte index 1 is out of bounds"

  /** `panic!("bad input: {:?}", direction)`. */
  function BadInput(direction: string): string
  {
    "bad input: \"" + direction + "\""
  }

  const Origin: Point := Point(0, 0)

  datatype Dir = U | D | L | R

  /** A segment of a wire: a direction and a signed length. */
  datatype Segment = Segment(dir: Dir, magnitude: int)

  function DirLetter(d: Dir): char
  {
    match d
    case U => 'U'
    case D => 'D'
    case L => 'L'
    case R => 'R'
  }

  // ---------------------------------------------------------------------
  // Reading a segment (three.rs:72-82)
  // ---------------------------------------------------------------------

  /** One segment: split after the first character, the rest parsed as an
      `i32` and unwrapped, then the letter matched. */
  function ParseSegment(v: string): Result<Segment>
  {
    if |v| < 1 then Err(SliceError)
    else
      var magnitude := ParseI32(v[1..]);
      if magnitude.None? then Err(UnwrapErr)
      else if v[0] == 'U' then Ok(Segment(U, magnitude.value))
      else if v[0] == 'D' then Ok(Segment(D, magnitude.value))
      else if v[0] == 'L' then Ok(Segment(L, magnitude.value))
      else if v[0] == 'R' then Ok(Segment(R, magnitude.value))
      else Err(BadInput([v[0]]))
  }

  /** The text of a segment. */
  function ShowSegment(s: Segment): string
  {
    [DirLetter(s.dir)] + ShowInt(s.magnitude)
  }

  /** Reading a segment's text gives the segment back. */
  lemma ParseShowSegment(s: Segment)
    requires I32Min <= s.magnitude <= I32Max
    ensures ParseSegment(ShowSegment(s)) == Ok(s)
  {
    var v := ShowSegment(s);
    assert v[1..] == ShowInt(s.magnitude);
    ParseShowI32(s.magnitude);
  }

  /** A segment is read exactly when it has a direction letter and a
      number after it; an unknown letter is fatal, but only once the
      number has been read. */
  lemma ParseSegmentSpec(v: string)
    ensures ParseSegment(v).Ok? <==> |v| >= 1 && v[0] in "UDLR" && ParseI32(v[1..]).Some?
    ensures ParseSegment(v).Ok? ==>
      DirLetter(ParseSegment(v).value.dir) == v[0] && ParseSegment(v).value.magnitude == ParseI32(v[1..]).value
    ensures |v| >= 1 && v[0] !in "UDLR" && ParseI32(v[1..]).Some? ==> ParseSegment(v) == Err(BadInput([v[0]]))
    ensures |v| >= 1 && ParseI32(v[1..]).None? ==> ParseSegment(v) == Err(UnwrapErr)
  {
  }

  // ---------------------------------------------------------------------
  // Tracing a wire (three.rs:65-90)
  // ---------------------------------------------------------------------

  /** `up`, `down`, `left` or `right`. */
  function Move(d: Dir, p: Point): Point
  {
    match d
    case U => Up(p)
    case D => Down(p)
    case L => Left(p)
    case R => Right(p)
  }

  /** Each move is one step. */
  lemma MoveAdjacent(d: Dir, p: Point)
    ensures Adjacent(p, Move(d, p))
  {
    MovesAreSteps(p);
  }

  /** The point `k` moves in direction `d` from `p`. */
  function Walk(p: Point, d: Dir, k: nat): Point
  {
    if k == 0 then p else Move(d, Walk(p, d, k - 1))
  }

  /** `k` moves change one coordinate by `k`. */
  lemma {:induction false} WalkCoords(p: Point, d: Dir, k: nat)
    ensures Walk(p, d, k) == match d
      case U => Point(p.x, p.y + k)
      case D => Point(p.x, p.y - k)
      case L => Point(p.x - k, p.y)
      case R => Point(p.x + k, p.y)
  {
    if k > 0 {
      WalkCoords(p, d, k - 1);
    }
  }

  /** The number of moves a segment makes: none for a length that is not
      positive. */
  function Moves(s: Segment): nat
  {
    if s.magnitude > 0 then s.magnitude else 0
  }

  /** The points the first `n` moves from `p` reach, not `p` itself. */
  function Reached(p: Point, d: Dir, n: nat): set<Point>
  {
    set k | 1 <= k <= n :: Walk(p, d, k)
  }

  /** The points a segment inserts from `p`. */
  function Path(p: Point, s: Segment): set<Point>
  {
    Reached(p, s.dir, Moves(s))
  }

  datatype Traced = Traced(cur: Point, points: set<Point>)

  /** Where a wire ends and the points it has inserted. */
  function Trace(segs: seq<Segment>): Traced
  {
    if segs == [] then Traced(Origin, {})
    else
      var t := Trace(segs[..|segs| - 1]);
      var s := segs[|segs| - 1];
      Traced(Walk(t.cur, s.dir, Moves(s)), t.points + Path(t.cur, s))
  }

  // The reference reading: a wire as the sequence of points it visits.

  /** The points a segment visits from `p`, one move at a time. */
  function Steps(p: Point, s: Segment): (v: seq<Point>)
    ensures |v| == Moves(s)
  {
    seq(Moves(s), k requires 0 <= k < Moves(s) => Walk(p, s.dir, k + 1))
  }

  /** The points a wire visits, one move at a time, in order. */
  function Visits(segs: seq<Segment>): seq<Point>
  {
    if segs == [] then []
    else
      var front := segs[..|segs| - 1];
      Visits(front) + Steps(Trace(front).cur, segs[|segs| - 1])
  }

  function Elements(v: seq<Point>): set<Point>
  {
    set q | q in v
  }

  /** The last point of `v`, or `start` when it is empty. */
  function LastOr(start: Point, v: seq<Point>): Point
  {
    if v == [] then start else v[|v| - 1]
  }

  /** Each point of `v` is one step from the one before, the first one
      step from `start`. */
  predicate Chain(start: Point, v: seq<Point>)
  {
    (v != [] ==> Adjacent(start, v[0])) && forall i :: 0 < i < |v| ==> Adjacent(v[i - 1], v[i])
  }

  lemma ChainJoin(start: Point, a: seq<Point>, b: seq<Point>)
    requires Chain(start, a) && Chain(LastOr(start, a), b)
    ensures Chain(start, a + b) && LastOr(start, a + b) == LastOr(LastOr(start, a), b)
  {
    var c := a + b;
    forall i | 0 < i < |c|
      ensures Adjacent(c[i - 1], c[i])
    {
      if i > |a| {
        assert c[i - 1] == b[i - 1 - |a|] && c[i] == b[i - |a|];
      } else if i == |a| {
        assert c[i] == b[0];
      }
    }
  }

  /** A segment's steps reach the points it inserts, one step at a time,
      ending where the segment ends. */
  lemma StepsSpec(p: Point, s: Segment)
    ensures Elements(Steps(p, s)) == Path(p, s)
    ensures Chain(p, Steps(p, s))
    ensures LastOr(p, Steps(p, s)) == Walk(p, s.dir, Moves(s))
  {
    var v := Steps(p, s);
    forall q | q in Path(p, s)
      ensures q in Elements(v)
    {
      var k :| 1 <= k <= Moves(s) && q == Walk(p, s.dir, k);
      assert v[k - 1] == q;
    }
    forall q | q in Elements(v)
      ensures q in Path(p, s)
    {
      var i :| 0 <= i < |v| && v[i] == q;
      assert q == Walk(p, s.dir, i + 1);
    }
    if v != [] {
      assert v[0] == Walk(p, s.dir, 1) == Move(s.dir, Walk(p, s.dir, 0));
      MoveAdjacent(s.dir, p);
    }
    forall i | 0 < i < |v|
      ensures Adjacent(v[i - 1], v[i])
    {
      assert v[i - 1] == Walk(p, s.dir, i) && v[i] == Move(s.dir, Walk(p, s.dir, i));
      MoveAdjacent(s.dir, Walk(p, s.dir, i));
    }
  }

  /** The wire as a path: the points inserted are exactly the points
      visited one move at a time from the origin, each one step from the
      one before, and the wire ends at the last of them.  In particular
      the origin is inserted only when the wire comes back to it. */
  lemma {:induction false} TraceVisits(segs: seq<Segment>)
    ensures Trace(segs).points == Elements(Visits(segs))
    ensures Chain(Origin, Visits(segs)) && Trace(segs).cur == LastOr(Origin, Visits(segs))
  {
    if segs != [] {
      var front := segs[..|segs| - 1];
      var s := segs[|segs| - 1];
      TraceVisits(front);
      var t := Trace(front);
      StepsSpec(t.cur, s);
      var v0, tail := Visits(front), Steps(t.cur, s);
      ChainJoin(Origin, v0, tail);
      assert Elements(v0 + tail) == Elements(v0) + Elements(tail);
    }
  }

  /** `map_wire`: the points of a wire, or the panic of its first bad
      segment. */
  function Wire(wire: string): Result<set<Point>>
  {
    var segs :- ParseEach(Split(Trim(wire), ","), ParseSegment);
    Ok(Trace(segs).points)
  }

  /** The texts of the segments, in order. */
  function Parts(segs: seq<Segment>): (parts: seq<string>)
    ensures |parts| == |segs|
  {
    seq(|segs|, i requires 0 <= i < |segs| => ShowSegment(segs[i]))
  }

  /** The text of a wire: its segments joined by commas. */
  function ShowWire(segs: seq<Segment>): string
  {
    Join(Parts(segs), ",")
  }

  /** A segment's text starts with its letter and ends with a digit, and
      holds no comma. */
  lemma ShowSegmentChars(s: Segment)
    ensures var v := ShowSegment(s);
      |v| >= 2 && v[0] == DirLetter(s.dir) && IsDigit(v[|v| - 1]) && ',' !in v
  {
    ShowIntChars(s.magnitude);
    var v := ShowSegment(s);
    assert v[1..] == ShowInt(s.magnitude);
    assert forall k :: 1 <= k < |v| ==> v[k] == ShowInt(s.magnitude)[k - 1];
  }

  /** A join starts with its first part and ends with its last one. */
  lemma {:induction false} JoinEnds(parts: seq<string>, sep: string)
    requires |parts| >= 1 && forall k :: 0 <= k < |parts| ==> |parts[k]| > 0
    ensures var j := Join(parts, sep);
      |j| > 0 && j[0] == parts[0][0] && j[|j| - 1] == parts[|parts| - 1][|parts[|parts| - 1]| - 1]
    decreases |parts|
  {
    if |parts| > 1 {
      JoinEnds(parts[1..], sep);
    }
  }

  /** A wire's text starts with its first letter and ends with a digit ... */
  lemma ShowWireEnds(segs: seq<Segment>)
    requires |segs| >= 1
    ensures var w := ShowWire(segs);
      |w| > 0 && w[0] == DirLetter(segs[0].dir) && IsDigit(w[|w| - 1])
  {
    var parts := Parts(segs);
    forall k | 0 <= k < |parts|
      ensures |parts[k]| >= 2 && IsDigit(parts[k][|parts[k]| - 1])
    {
      ShowSegmentChars(segs[k]);
    }
    ShowSegmentChars(segs[0]);
    JoinEnds(parts, ",");
  }

  /** ... so it has no surrounding whitespace ... */
  lemma ShowWireTrimmed(segs: seq<Segment>)
    requires |segs| >= 1
    ensures Trim(ShowWire(segs)) == ShowWire(segs)
  {
    ShowWireEnds(segs);
    var w := ShowWire(segs);
    var first, last := w[0], w[|w| - 1];
    assert first == 'U' || first == 'D' || first == 'L' || first == 'R';
    assert !IsWhitespace(first) && !IsWhitespace(last);
    TrimByUnchanged(w, IsWhitespace);
  }

  /** ... and splits at its commas into its segments' texts. */
  lemma ShowWireSplit(segs: seq<Segment>)
    requires |segs| >= 1
    ensures Split(Trim(ShowWire(segs)), ",") == Parts(segs)
  {
    var parts := Parts(segs);
    forall k | 0 <= k < |parts|
      ensures ',' !in parts[k]
    {
      ShowSegmentChars(segs[k]);
    }
    ShowWireTrimmed(segs);
    SplitJoin(parts, ',');
  }

  /** Each segment's text reads as the segment. */
  lemma ParseParts(segs: seq<Segment>)
    requires forall k :: 0 <= k < |segs| ==> I32Min <= segs[k].magnitude <= I32Max
    ensures ParseEach(Parts(segs), ParseSegment) == Ok(segs)
  {
    var parts := Parts(segs);
    forall k | 0 <= k < |parts|
      ensures ParseSegment(parts[k]) == Ok(segs[k])
    {
      ParseShowSegment(segs[k]);
    }
    ParseEachSpec(parts, ParseSegment);
    assert ParseEach(parts, ParseSegment).value == segs;
  }

  /** Reading a wire's text gives back the points of the wire. */
  lemma WireShown(segs: seq<Segment>)
    requires |segs| >= 1 && forall k :: 0 <= k < |segs| ==> I32Min <= segs[k].magnitude <= I32Max
    ensures Wire(ShowWire(segs)) == Ok(Trace(segs).points)
  {
    ShowWireSplit(segs);
    ParseParts(segs);
  }

  /** The `while magnitude > 0` loop: move and insert, one step at a time. */
  method Extend(cur: Point, points: set<Point>, s: Segment) returns (cur': Point, points': set<Point>)
    ensures cur' == Walk(cur, s.dir, Moves(s)) && points' == points + Path(cur, s)
  {
    var magnitude := s.magnitude;
    cur', points' := cur, points;
    ghost var k: nat := 0;
    while magnitude > 0
      invariant k <= Moves(s) && magnitude == s.magnitude - k
      invariant cur' == Walk(cur, s.dir, k)
      invariant points' == points + Reached(cur, s.dir, k)
    {
      cur' := Move(s.dir, cur');
      points' := points' + {cur'};
      magnitude := magnitude - 1;
      k := k + 1;
      assert Reached(cur, s.dir, k) == Reached(cur, s.dir, k - 1) + {Walk(cur, s.dir, k)};
    }
  }

  /** `map_wire` itself. */
  method MapWire(wire: string) returns (r: Result<set<Point>>)
    ensures r == Wire(wire)
  {
    var cur := Origin;
    var points: set<Point> := {};
    var vectors := Split(Trim(wire), ",");
    ghost var segs: seq<Segment> := [];
    for i := 0 to |vectors|
      invariant ParseEach(vectors[..i], ParseSegment) == Ok(segs)
      invariant Trace(segs) == Traced(cur, points)
    {
      var seg := ParseSegment(vectors[i]);
      if !seg.Ok? {
        ParseEachFirstFailure(vectors, ParseSegment, i, |vectors|);
        assert vectors[..|vectors|] == vectors;
        return seg.PropagateFailure();
      }
      ParseEachStep(vectors, ParseSegment, i, segs);
      assert (segs + [seg.value])[..|segs|] == segs;
      segs := segs + [seg.value];
      cur, points := Extend(cur, points, seg.value);
    }
    assert vectors[..|vectors|] == vectors;
    return Ok(points);
  }

  // ---------------------------------------------------------------------
  // `three_a` (three.rs:92-108)
  // ---------------------------------------------------------------------

  /** `d` is the smallest distance from the origin of a point of `s`. */
  predicate IsClosest(s: set<Point>, d: nat)
  {
    (exists p :: p in s && Dist(p) == d) && forall p :: p in s ==> d <= Dist(p)
  }

  /** The distance of the first point once the crossings are sorted by
      `Cmp`, which is the smallest distance whatever order equal points
      end up in. */
  method Closest(s: set<Point>) returns (d: nat)
    requires s != {}
    ensures IsClosest(s, d)
  {
    var best :| best in s;
    var rest := s - {best};
    while rest != {}
      invariant rest <= s && best in s
      invariant forall q :: q in s - rest ==> Dist(best) <= Dist(q)
      decreases |rest|
    {
      var q :| q in rest;
      if Cmp(q, best) == Less {
        best := q;
      }
      rest := rest - {q};
    }
    d := Dist(best);
  }

  /** `three_a` on its two input lines: the nearest crossing's distance;
      a bad wire is fatal, and so is `inter[0]` when the wires never
      cross. */
  method ThreeA(line1: string, line2: string) returns (r: Result<int>)
    ensures !Wire(line1).Ok? ==> r == Wire(line1).PropagateFailure()
    ensures Wire(line1).Ok? && !Wire(line2).Ok? ==> r == Wire(line2).PropagateFailure()
    ensures Wire(line1).Ok? && Wire(line2).Ok? ==>
      if Wire(line1).value * Wire(line2).value == {} then r == Err(IndexOutOfBounds)
      else r.Ok? && r.value >= 0 && IsClosest(Wire(line1).value * Wire(line2).value, r.value)
  {
    var w1 :- MapWire(line1);
    var w2 :- MapWire(line2);
    var inter := w1 * w2;
    if inter == {} {
      return Err(IndexOutOfBounds);
    }
    var d := Closest(inter);
    return Ok(d);
  }

  // ---------------------------------------------------------------------
  // The first example of `test_three_a` (three.rs:114, three.rs:122)
  // ---------------------------------------------------------------------

  /** The points `n` moves reach, by coordinates. */
  lemma ReachedCoords(p: Point, d: Dir, n: nat, q: Point)
    ensures q in Reached(p, d, n) <==> match d
      case U => q.x == p.x && p.y < q.y <= p.y + n
      case D => q.x == p.x && p.y - n <= q.y < p.y
      case L => q.y == p.y && p.x - n <= q.x < p.x
      case R => q.y == p.y && p.x < q.x <= p.x + n
  {
    if q in Reached(p, d, n) {
      var k :| 1 <= k <= n && q == Walk(p, d, k);
      WalkCoords(p, d, k);
    } else {
      var k := match d
        case U => q.y - p.y
        case D => p.y - q.y
        case L => p.x - q.x
        case R => q.x - p.x;
      if 1 <= k <= n {
        WalkCoords(p, d, k);
      }
    }
  }

  /** A wire one segment longer. */
  lemma TraceSnoc(segs: seq<Segment>, s: Segment)
    ensures Trace(segs + [s]) == Traced(Walk(Trace(segs).cur, s.dir, Moves(s)), Trace(segs).points + Path(Trace(segs).cur, s))
  {
    assert (segs + [s])[..|segs|] == segs;
  }

  /** A four-segment wire, segment by segment. */
  lemma TraceFour(s0: Segment, s1: Segment, s2: Segment, s3: Segment, p1: Point, p2: Point, p3: Point)
    requires p1 == Walk(Origin, s0.dir, Moves(s0))
    requires p2 == Walk(p1, s1.dir, Moves(s1))
    requires p3 == Walk(p2, s2.dir, Moves(s2))
    ensures Trace([s0, s1, s2, s3]).points == Path(Origin, s0) + Path(p1, s1) + Path(p2, s2) + Path(p3, s3)
  {
    assert [s0, s1, s2, s3] == [] + [s0] + [s1] + [s2] + [s3];
    TraceSnoc([], s0);
    TraceSnoc([s0], s1);
    TraceSnoc([s0, s1], s2);
    TraceSnoc([s0, s1, s2], s3);
  }

  /** "R8,U5,L5,D3" ... */
  lemma FirstWirePoints(segs: seq<Segment>)
    requires segs == [Segment(R, 8), Segment(U, 5), Segment(L, 5), Segment(D, 3)]
    ensures Trace(segs).points == Reached(Origin, R, 8) + Reached(Point(8, 0), U, 5) + Reached(Point(8, 5), L, 5) + Reached(Point(3, 5), D, 3)
  {
    WalkCoords(Origin, R, 8);
    WalkCoords(Point(8, 0), U, 5);
    WalkCoords(Point(8, 5), L, 5);
    assert Walk(Origin, R, 8) == Point(8, 0) && Walk(Point(8, 0), U, 5) == Point(8, 5);
    assert Walk(Point(8, 5), L, 5) == Point(3, 5);
    TraceFour(Segment(R, 8), Segment(U, 5), Segment(L, 5), Segment(D, 3), Point(8, 0), Point(8, 5), Point(3, 5));
  }

  lemma FirstWire(segs: seq<Segment>, q: Point)
    requires segs == [Segment(R, 8), Segment(U, 5), Segment(L, 5), Segment(D, 3)]
    ensures q in Trace(segs).points <==>
      (q.y == 0 && 0 < q.x <= 8) || (q.x == 8 && 0 < q.y <= 5) || (q.y == 5 && 3 <= q.x < 8) || (q.x == 3 && 2 <= q.y < 5)
  {
    FirstWirePoints(segs);
    ReachedCoords(Origin, R, 8, q);
    ReachedCoords(Point(8, 0), U, 5, q);
    ReachedCoords(Point(8, 5), L, 5, q);
    ReachedCoords(Point(3, 5), D, 3, q);
  }

  /** ... and "U7,R6,D4,L4". */
  lemma SecondWirePoints(segs: seq<Segment>)
    requires segs == [Segment(U, 7), Segment(R, 6), Segment(D, 4), Segment(L, 4)]
    ensures Trace(segs).points == Reached(Origin, U, 7) + Reached(Point(0, 7), R, 6) + Reached(Point(6, 7), D, 4) + Reached(Point(6, 3), L, 4)
  {
    WalkCoords(Origin, U, 7);
    WalkCoords(Point(0, 7), R, 6);
    WalkCoords(Point(6, 7), D, 4);
    assert Walk(Origin, U, 7) == Point(0, 7) && Walk(Point(0, 7), R, 6) == Point(6, 7);
    assert Walk(Point(6, 7), D, 4) == Point(6, 3);
    TraceFour(Segment(U, 7), Segment(R, 6), Segment(D, 4), Segment(L, 4), Point(0, 7), Point(6, 7), Point(6, 3));
  }

  lemma SecondWire(segs: seq<Segment>, q: Point)
    requires segs == [Segment(U, 7), Segment(R, 6), Segment(D, 4), Segment(L, 4)]
    ensures q in Trace(segs).points <==>
      (q.x == 0 && 0 < q.y <= 7) || (q.y == 7 && 0 < q.x <= 6) || (q.x == 6 && 3 <= q.y < 7) || (q.y == 3 && 2 <= q.x < 6)
  {
    SecondWirePoints(segs);
    ReachedCoords(Origin, U, 7, q);
    ReachedCoords(Point(0, 7), R, 6, q);
    ReachedCoords(Point(6, 7), D, 4, q);
    ReachedCoords(Point(6, 3), L, 4, q);
  }

  /** The two wires cross at (3, 3) and (6, 5); the nearer crossing is 6
      away, the answer `test_three_a` expects. */
  lemma CrossingExample(a: seq<Segment>, b: seq<Segment>)
    requires a == [Segment(R, 8), Segment(U, 5), Segment(L, 5), Segment(D, 3)]
    requires b == [Segment(U, 7), Segment(R, 6), Segment(D, 4), Segment(L, 4)]
    ensures Wire(ShowWire(a)) == Ok(Trace(a).points) && Wire(ShowWire(b)) == Ok(Trace(b).points)
    ensures IsClosest(Trace(a).points * Trace(b).points, 6)
  {
    ExampleShown(a);
    ExampleShown(b);
    NearestCrossing(a, b);
  }

  /** A four-segment wire of small magnitudes reads back from its text. */
  lemma ExampleShown(segs: seq<Segment>)
    requires |segs| == 4
    requires 0 <= segs[0].magnitude <= 10 && 0 <= segs[1].magnitude <= 10
    requires 0 <= segs[2].magnitude <= 10 && 0 <= segs[3].magnitude <= 10
    ensures Wire(ShowWire(segs)) == Ok(Trace(segs).points)
  {
    forall k | 0 <= k < |segs| ensures I32Min <= segs[k].magnitude <= I32Max {
      assert k == 0 || k == 1 || k == 2 || k == 3;
    }
    WireShown(segs);
  }

  lemma NearestCrossing(a: seq<Segment>, b: seq<Segment>)
    requires a == [Segment(R, 8), Segment(U, 5), Segment(L, 5), Segment(D, 3)]
    requires b == [Segment(U, 7), Segment(R, 6), Segment(D, 4), Segment(L, 4)]
    ensures IsClosest(Trace(a).points * Trace(b).points, 6)
  {
    var cross := Trace(a).points * Trace(b).points;
    forall q | q in cross
      ensures 6 <= Dist(q)
    {
      FirstWire(a, q);
      SecondWire(b, q);
    }
    FirstWire(a, Point(3, 3));
    SecondWire(b, Point(3, 3));
    assert Point(3, 3) in cross && Dist(Point(3, 3)) == 6;
  }
}
