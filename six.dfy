/**
 * Day 6 (src/six.rs): a map of orbits "A)B" (B orbits A), the total
 * number of direct and indirect orbits, and the number of orbital
 * transfers between the objects YOU and SAN orbit.
 */
module Six {
  import opened Wrappers
  import opened Text
  import opened Maps

  const Com: string := "COM"
  const You: string := "YOU"
  const San: string := "SAN"

  /** One direct orbit: `mass` orbits `focus`. */
  datatype Orbit = Orbit(focus: string, mass: string)

  // ---------------------------------------------------------------------
  // `lines_to_orbits` (six.rs:21-38)
  // ---------------------------------------------------------------------

  /** A line split at every `)`: its first two pieces, the rest ignored.  A
      line without `)` fails at the index `[1]`. */
  function OrbitOfLine(line: string): Result<Orbit>
  {
    var parts := Split(line, ")");
    if |parts| < 2 then Err(IndexOutOfBounds) else Ok(Orbit(parts[0], parts[1]))
  }

  /** The orbits the lines describe, one per line. */
  function Orbits(lines: seq<string>): Result<seq<Orbit>>
  {
    ParseEach(lines, OrbitOfLine)
  }

  /** `lines_to_orbits`: one orbit per line, in order. */
  method LinesToOrbits(lines: seq<string>) returns (r: Result<seq<Orbit>>)
    ensures r == Orbits(lines)
  {
    var orbits: seq<Orbit> := [];
    for k := 0 to |lines|
      invariant ParseEach(lines[..k], OrbitOfLine) == Ok(orbits)
    {
      var parts := Split(lines[k], ")");
      if |parts| < 2 {
        ParseEachFirstFailure(lines, OrbitOfLine, k, |lines|);
        assert lines[..|lines|] == lines;
        return Err(IndexOutOfBounds);
      }
      ParseEachStep(lines, OrbitOfLine, k, orbits);
      orbits := orbits + [Orbit(parts[0], parts[1])];
    }
    assert lines[..|lines|] == lines;
    return Ok(orbits);
  }

  /** The lines are read exactly when every one of them holds a `)`, and
      then there is one orbit per line, in order. */
  lemma OrbitsSpec(lines: seq<string>)
    ensures Orbits(lines).Ok? <==> forall k :: 0 <= k < |lines| ==> OrbitOfLine(lines[k]).Ok?
    ensures Orbits(lines).Ok? <==> forall k :: 0 <= k < |lines| ==> ')' in lines[k]
    ensures Orbits(lines).Ok? ==> (|Orbits(lines).value| == |lines|
      && forall k :: 0 <= k < |lines| ==> Orbits(lines).value[k] == OrbitOfLine(lines[k]).value)
  {
    ParseEachSpec(lines, OrbitOfLine);
    forall k | 0 <= k < |lines|
      ensures OrbitOfLine(lines[k]).Ok? <==> ')' in lines[k]
    {
      OrbitOfLineOk(lines[k]);
    }
  }

  /** A line parses exactly when it holds a `)`. */
  lemma OrbitOfLineOk(line: string)
    ensures OrbitOfLine(line).Ok? <==> ')' in line
  {
    var parts := Split(line, ")");
    if ')' in line {
      var i :| 0 <= i < |line| && line[i] == ')';
      SplitAtSome(line, i);
    } else {
      SplitJoin([line], ')');
    }
  }

  /** A string with a `)` at `j` splits into at least two pieces. */
  lemma SplitAtSome(line: string, j: nat)
    requires j < |line| && line[j] == ')'
    ensures |Split(line, ")")| >= 2
    decreases j
  {
    if ')' in line[..j] {
      var j' :| 0 <= j' < j && line[..j][j'] == ')';
      SplitAtSome(line, j');
    } else {
      FirstOccurrence(line[..j], ')', line[j + 1..]);
      assert line == line[..j] + [')'] + line[j + 1..];
    }
  }

  /** `lines_to_orbits` reads back an orbit written as "focus)mass". */
  lemma OrbitOfLineShown(o: Orbit)
    requires ')' !in o.focus && ')' !in o.mass
    ensures OrbitOfLine(o.focus + ")" + o.mass) == Ok(o)
  {
    var parts := [o.focus, o.mass];
    assert Join(parts, ")") == o.focus + ")" + o.mass by {
      assert parts[1..] == [o.mass];
    }
    SplitJoin(parts, ')');
  }

  // ---------------------------------------------------------------------
  // `total_orbits` (six.rs:43-62)
  // ---------------------------------------------------------------------

  /** The objects that orbit something. */
  function Masses(orbits: seq<Orbit>): set<string>
  {
    set i | 0 <= i < |orbits| :: orbits[i].mass
  }

  /** The orbits, as a set. */
  function Elems(orbits: seq<Orbit>): set<Orbit>
  {
    set i | 0 <= i < |orbits| :: orbits[i]
  }

  /** Orbit `i` lies `d` orbits away from COM: directly about COM at depth
      1, or about the mass of another orbit at depth `d - 1`. */
  ghost predicate Reaches(orbits: seq<Orbit>, i: nat, d: nat)
    requires i < |orbits|
    decreases d
  {
    d >= 1 &&
    if orbits[i].focus == Com then d == 1
    else exists j :: 0 <= j < |orbits| && orbits[j].mass == orbits[i].focus && Reaches(orbits, j, d - 1)
  }

  /** Orbit `i` lies at most `bound` orbits away from COM. */
  ghost predicate ReachesWithin(orbits: seq<Orbit>, i: nat, bound: nat)
    requires i < |orbits|
  {
    exists d: nat :: d <= bound && Reaches(orbits, i, d)
  }

  /** Object `m` is at depth `d`: some orbit of `m` reaches COM in `d`. */
  ghost predicate AtDepth(orbits: seq<Orbit>, m: string, d: nat)
  {
    exists i :: 0 <= i < |orbits| && orbits[i].mass == m && Reaches(orbits, i, d)
  }

  /** Every recorded depth is a depth of its object. */
  ghost predicate Justified(orbits: seq<Orbit>, depth: map<string, nat>)
  {
    forall m :: m in depth ==> AtDepth(orbits, m, depth[m])
  }

  predicate Distinct(orbits: seq<Orbit>)
  {
    forall i, j :: 0 <= i < j < |orbits| ==> orbits[i] != orbits[j]
  }

  /** Each object orbits one thing only. */
  predicate UniqueMasses(orbits: seq<Orbit>)
  {
    forall i, j :: 0 <= i < j < |orbits| ==> orbits[i].mass != orbits[j].mass
  }

  /** The state between two passes of `total_orbits`' loop: every recorded
      depth is justified, every completed orbit's mass is recorded, and
      after `pass` passes every orbit at depth at most `pass` is completed. */
  ghost predicate Passed(orbits: seq<Orbit>, depth: map<string, nat>, completed: set<Orbit>, pass: nat)
  {
    Justified(orbits, depth) && completed <= Elems(orbits) && depth.Keys <= Masses(orbits)
    && (forall o :: o in completed ==> o.mass in depth)
    && (forall i: nat, d: nat :: i < |orbits| && d <= pass && Reaches(orbits, i, d) ==> orbits[i] in completed)
  }

  /** One pass of the `for` loop over the orbits. */
  method Pass(orbits: seq<Orbit>, depth0: map<string, nat>, completed0: set<Orbit>, ghost pass: nat)
    returns (depth: map<string, nat>, completed: set<Orbit>)
    requires Passed(orbits, depth0, completed0, pass)
    ensures Passed(orbits, depth, completed, pass + 1)
  {
    depth, completed := depth0, completed0;
    for k := 0 to |orbits|
      invariant Passed(orbits, depth, completed, pass)
      invariant forall i: nat, d: nat :: i < k && d <= pass + 1 && Reaches(orbits, i, d) ==> orbits[i] in completed
    {
      var o := orbits[k];
      assert o in Elems(orbits);
      ReachedFocus(orbits, depth, completed, pass, k);
      if o.focus == Com {
        assert Reaches(orbits, k, 1);
        depth := depth[o.mass := 1];
        completed := completed + {o};
      } else if o.focus in depth {
        var f := depth[o.focus];
        ghost var j :| 0 <= j < |orbits| && orbits[j].mass == o.focus && Reaches(orbits, j, f);
        assert Reaches(orbits, k, f + 1);
        depth := depth[o.mass := f + 1];
        completed := completed + {o};
      }
    }
  }

  /** An orbit within one pass more of COM has its focus recorded. */
  lemma ReachedFocus(orbits: seq<Orbit>, depth: map<string, nat>, completed: set<Orbit>, pass: nat, k: nat)
    requires Passed(orbits, depth, completed, pass) && k < |orbits|
    ensures forall d: nat :: d <= pass + 1 && Reaches(orbits, k, d) && orbits[k].focus != Com ==> orbits[k].focus in depth
  {
    forall d: nat | d <= pass + 1 && Reaches(orbits, k, d) && orbits[k].focus != Com
      ensures orbits[k].focus in depth
    {
      var j :| 0 <= j < |orbits| && orbits[j].mass == orbits[k].focus && Reaches(orbits, j, d - 1);
      assert orbits[j] in completed;
    }
  }

  /** Once every orbit is within `pass` of COM, `pass` passes complete them
      all. */
  lemma AllCompleted(orbits: seq<Orbit>, depth: map<string, nat>, completed: set<Orbit>, pass: nat)
    requires Passed(orbits, depth, completed, pass)
    ensures (forall i: nat :: i < |orbits| ==> ReachesWithin(orbits, i, pass)) ==> completed == Elems(orbits)
  {
    if forall i: nat :: i < |orbits| ==> ReachesWithin(orbits, i, pass) {
      forall o | o in Elems(orbits)
        ensures o in completed
      {
        var i :| 0 <= i < |orbits| && orbits[i] == o;
        assert ReachesWithin(orbits, i, pass);
        var d: nat :| d <= pass && Reaches(orbits, i, d);
      }
    }
  }

  /** `total_orbits`: passes over the orbits until every one is completed,
      then the sum of the recorded depths.  A pass records a mass directly
      about COM at depth 1 and a mass about a recorded focus one deeper than
      it; `fuel` bounds the passes, which the source repeats forever when
      some chain never reaches COM or an orbit is listed twice. */
  method TotalOrbits(orbits: seq<Orbit>, fuel: nat) returns (r: Result<nat>)
    ensures r.Ok? || r.OutOfFuel?
    ensures r.Ok? ==> exists depth: map<string, nat> ::
      (depth.Keys == Masses(orbits) && Justified(orbits, depth) && r.value == MapSum(depth))
    ensures Distinct(orbits) && (forall i: nat :: i < |orbits| ==> ReachesWithin(orbits, i, fuel))
      ==> r.Ok?
  {
    var depth: map<string, nat> := map[];
    var completed: set<Orbit> := {};
    var pass: nat := 0;
    ElemsCard(orbits);
    while |completed| < |orbits|
      invariant pass <= fuel
      invariant Passed(orbits, depth, completed, pass)
      decreases fuel - pass
    {
      if pass == fuel {
        AllCompleted(orbits, depth, completed, pass);
        return OutOfFuel;
      }
      depth, completed := Pass(orbits, depth, completed, pass);
      pass := pass + 1;
    }
    SubsetFull(completed, Elems(orbits));
    assert depth.Keys == Masses(orbits);
    var total := SumValues(depth);
    return Ok(total);
  }

  /** The orbits as a set number at most as many as listed, and exactly as
      many when no orbit is listed twice. */
  lemma {:induction false} ElemsCard(orbits: seq<Orbit>)
    ensures |Elems(orbits)| <= |orbits|
    ensures Distinct(orbits) ==> |Elems(orbits)| == |orbits|
  {
    if orbits != [] {
      var front := orbits[..|orbits| - 1];
      var last := orbits[|orbits| - 1];
      ElemsCard(front);
      assert Elems(orbits) == Elems(front) + {last} by {
        forall o | o in Elems(orbits) ensures o in Elems(front) + {last} {
          var i :| 0 <= i < |orbits| && orbits[i] == o;
          if i < |front| { assert front[i] == o; }
        }
      }
      if Distinct(orbits) {
        assert last !in Elems(front);
      }
    }
  }

  /** A subset at least as large as its superset is all of it. */
  lemma SubsetFull<T>(a: set<T>, b: set<T>)
    requires a <= b && |a| >= |b|
    ensures a == b
  {
    assert b == a + (b - a);
    assert a * (b - a) == {};
    assert |b - a| == 0;
  }

  /** When each object orbits one thing, an orbit's depth is unique. */
  lemma {:induction false} ReachesUnique(orbits: seq<Orbit>, i: nat, d1: nat, d2: nat)
    requires UniqueMasses(orbits) && i < |orbits|
    requires Reaches(orbits, i, d1) && Reaches(orbits, i, d2)
    ensures d1 == d2
    decreases d1
  {
    if orbits[i].focus != Com {
      var j1 :| 0 <= j1 < |orbits| && orbits[j1].mass == orbits[i].focus && Reaches(orbits, j1, d1 - 1);
      var j2 :| 0 <= j2 < |orbits| && orbits[j2].mass == orbits[i].focus && Reaches(orbits, j2, d2 - 1);
      assert j1 == j2;
      ReachesUnique(orbits, j1, d1 - 1, d2 - 1);
    }
  }

  /** When each object orbits one thing, the recorded depths are the only
      possible ones, so `total_orbits` has a single answer. */
  lemma JustifiedUnique(orbits: seq<Orbit>, d1: map<string, nat>, d2: map<string, nat>)
    requires UniqueMasses(orbits)
    requires d1.Keys == d2.Keys && Justified(orbits, d1) && Justified(orbits, d2)
    ensures d1 == d2
  {
    forall m | m in d1
      ensures d1[m] == d2[m]
    {
      var i1 :| 0 <= i1 < |orbits| && orbits[i1].mass == m && Reaches(orbits, i1, d1[m]);
      var i2 :| 0 <= i2 < |orbits| && orbits[i2].mass == m && Reaches(orbits, i2, d2[m]);
      assert i1 == i2;
      ReachesUnique(orbits, i1, d1[m], d2[m]);
    }
  }

  /** The recorded depth of each orbit's mass, in the orbits' order. */
  function DepthsOf(orbits: seq<Orbit>, depth: map<string, nat>): (r: seq<nat>)
    requires Masses(orbits) <= depth.Keys
    ensures |r| == |orbits| && forall i :: 0 <= i < |orbits| ==> r[i] == depth[orbits[i].mass]
  {
    seq(|orbits|, i requires 0 <= i < |orbits| => assert orbits[i].mass in Masses(orbits); depth[orbits[i].mass])
  }

  /** When each object orbits one thing, summing the values of the depth
      map adds up the depth of every orbit once. */
  lemma {:induction false} MapSumOrbits(orbits: seq<Orbit>, depth: map<string, nat>)
    requires UniqueMasses(orbits) && depth.Keys == Masses(orbits)
    ensures MapSum(depth) == Sum(DepthsOf(orbits, depth))
  {
    if orbits == [] {
      assert depth == map[];
    } else {
      var n := |orbits|;
      var front := orbits[..n - 1];
      var m := orbits[n - 1].mass;
      var rest := depth - {m};
      assert Masses(orbits) == Masses(front) + {m} by {
        forall x | x in Masses(orbits) ensures x in Masses(front) + {m} {
          var i :| 0 <= i < n && orbits[i].mass == x;
          if i < n - 1 { assert front[i].mass == x; }
        }
      }
      assert m !in Masses(front);
      assert rest.Keys == Masses(front);
      MapSumOrbits(front, rest);
      MapSumRemove(depth, m);
      var all := DepthsOf(orbits, depth);
      assert all[..n - 1] == DepthsOf(front, rest);
    }
  }

  /** When each object orbits one thing, `total_orbits`' answer is the sum
      of the depths of the orbits, whatever depths are recorded. */
  lemma TotalIsSumOfDepths(orbits: seq<Orbit>, depth: map<string, nat>, ds: seq<nat>)
    requires UniqueMasses(orbits) && depth.Keys == Masses(orbits) && Justified(orbits, depth)
    requires |ds| == |orbits| && forall i :: 0 <= i < |orbits| ==> Reaches(orbits, i, ds[i])
    ensures MapSum(depth) == Sum(ds)
  {
    MapSumOrbits(orbits, depth);
    forall i | 0 <= i < |orbits|
      ensures depth[orbits[i].mass] == ds[i]
    {
      var m := orbits[i].mass;
      assert m in Masses(orbits);
      var k :| 0 <= k < |orbits| && orbits[k].mass == m && Reaches(orbits, k, depth[m]);
      assert k == i;
      ReachesUnique(orbits, i, depth[m], ds[i]);
    }
    assert DepthsOf(orbits, depth) == ds;
  }

  /** A recorded depth map gives an orbit about COM depth 1 ... */
  lemma DepthRoot(orbits: seq<Orbit>, depth: map<string, nat>, i: nat)
    requires UniqueMasses(orbits) && depth.Keys == Masses(orbits) && Justified(orbits, depth)
    requires i < |orbits| && orbits[i].focus == Com
    ensures orbits[i].mass in depth && depth[orbits[i].mass] == 1
  {
    var m := orbits[i].mass;
    assert m in Masses(orbits);
    var k :| 0 <= k < |orbits| && orbits[k].mass == m && Reaches(orbits, k, depth[m]);
    assert k == i;
  }

  /** ... and any other orbit one more than the orbit of its focus. */
  lemma DepthStep(orbits: seq<Orbit>, depth: map<string, nat>, i: nat, j: nat)
    requires UniqueMasses(orbits) && depth.Keys == Masses(orbits) && Justified(orbits, depth)
    requires i < |orbits| && j < |orbits| && orbits[i].focus != Com && orbits[j].mass == orbits[i].focus
    ensures orbits[i].mass in depth && orbits[j].mass in depth
    ensures depth[orbits[i].mass] == depth[orbits[j].mass] + 1
  {
    var mi, mj := orbits[i].mass, orbits[j].mass;
    assert mi in Masses(orbits) && mj in Masses(orbits);
    var kj :| 0 <= kj < |orbits| && orbits[kj].mass == mj && Reaches(orbits, kj, depth[mj]);
    assert kj == j;
    ReachesNext(orbits, i, j, depth[mj]);
    var ki :| 0 <= ki < |orbits| && orbits[ki].mass == mi && Reaches(orbits, ki, depth[mi]);
    assert ki == i;
    ReachesUnique(orbits, i, depth[mi], depth[mj] + 1);
  }

  // ---------------------------------------------------------------------
  // `calc_ancestors` (six.rs:88-103)
  // ---------------------------------------------------------------------

  /** The object `k` steps up the orbit map from `x`, if the map goes that
      far. */
  function Up(parents: map<string, string>, x: string, k: nat): Option<string>
  {
    if k == 0 then Some(x)
    else
      match Up(parents, x, k - 1)
      case None => None
      case Some(y) => if y in parents then Some(parents[y]) else None
  }

  /** `orbit_map.get(&curr).unwrap()`. */
  function Parent(parents: map<string, string>, x: string): (r: Result<string>)
    ensures r.Ok? <==> x in parents
    ensures r.Ok? ==> r.value == parents[x]
    ensures !r.Ok? ==> r == Err(UnwrapNone)
  {
    if x in parents then Ok(parents[x]) else Err(UnwrapNone)
  }

  /** The walk up from `obj` first meets COM, counting from the
      grandparent, at step `n + 1`. */
  predicate ComAt(parents: map<string, string>, obj: string, n: nat)
  {
    1 <= n && Up(parents, obj, n + 1) == Some(Com)
    && forall j :: 2 <= j <= n ==> Up(parents, obj, j) != Some(Com)
  }

  /** The walk up from `obj` reaches, without meeting COM after the
      parent, an object `n` steps up that orbits nothing. */
  predicate MissingAt(parents: map<string, string>, obj: string, n: nat)
  {
    Up(parents, obj, n).Some? && Up(parents, obj, n + 1).None?
    && forall j :: 2 <= j <= n ==> Up(parents, obj, j) != Some(Com)
  }

  /** The first `n` steps of the walk, each object mapped to its step less
      one; a later step at an object already visited replaces it. */
  function AncestorMap(parents: map<string, string>, obj: string, n: nat): map<string, nat>
  {
    if n == 0 then map[]
    else
      match Up(parents, obj, n)
      case None => AncestorMap(parents, obj, n - 1)
      case Some(a) => AncestorMap(parents, obj, n - 1)[a := n - 1]
  }

  /** A walk that has got `k` steps has got every step before. */
  lemma {:induction false} UpPrefix(parents: map<string, string>, x: string, j: nat, k: nat)
    requires j <= k && Up(parents, x, k).Some?
    ensures Up(parents, x, j).Some?
    decreases k
  {
    if j < k {
      UpPrefix(parents, x, j, k - 1);
    }
  }

  /** `calc_ancestors`: walk up from `obj`, recording each object met with
      its distance, the parent at 0, until the next object is COM.  A
      missing parent is fatal; `fuel` bounds the steps, which the source
      repeats forever on a cycle that avoids COM. */
  method CalcAncestors(parents: map<string, string>, obj: string, fuel: nat) returns (r: Result<map<string, nat>>)
    ensures r.Ok? ==> exists n: nat :: n <= fuel && ComAt(parents, obj, n) && r.value == AncestorMap(parents, obj, n)
    ensures r.Err? ==> r.error == UnwrapNone && exists n: nat :: MissingAt(parents, obj, n)
    ensures r.OutOfFuel? ==> forall j :: 2 <= j <= fuel + 1 ==> Up(parents, obj, j).Some? && Up(parents, obj, j) != Some(Com)
  {
    var first := Parent(parents, obj);
    if !first.Ok? {
      assert MissingAt(parents, obj, 0);
      return first.PropagateFailure();
    }
    var ann := first.value;
    var ancestors: map<string, nat> := map[];
    var i: nat := 0;
    while true
      invariant i <= fuel
      invariant Up(parents, obj, i + 1) == Some(ann)
      invariant ancestors == AncestorMap(parents, obj, i)
      invariant forall j :: 2 <= j <= i + 1 ==> Up(parents, obj, j) != Some(Com)
      decreases fuel - i
    {
      if i == fuel {
        forall j | 2 <= j <= fuel + 1
          ensures Up(parents, obj, j).Some?
        {
          UpPrefix(parents, obj, j, i + 1);
        }
        return OutOfFuel;
      }
      ancestors := ancestors[ann := i];
      var curr := ann;
      var next := Parent(parents, curr);
      if !next.Ok? {
        assert MissingAt(parents, obj, i + 1);
        return next.PropagateFailure();
      }
      ann := next.value;
      i := i + 1;
      if ann == Com {
        assert ComAt(parents, obj, i);
        return Ok(ancestors);
      }
    }
  }

  /** Every step of the walk up to a step it gets to exists. */
  lemma UpSteps(parents: map<string, string>, obj: string, n: nat)
    requires Up(parents, obj, n).Some?
    ensures forall j :: 0 <= j <= n ==> Up(parents, obj, j).Some?
  {
    forall j | 0 <= j <= n
      ensures Up(parents, obj, j).Some?
    {
      UpPrefix(parents, obj, j, n);
    }
  }

  /** An object is recorded exactly when some step 1..n of the walk meets
      it. */
  lemma {:induction false} AncestorKeys(parents: map<string, string>, obj: string, n: nat, x: string)
    ensures x in AncestorMap(parents, obj, n) <==> exists j :: 1 <= j <= n && Up(parents, obj, j) == Some(x)
  {
    if n > 0 {
      AncestorKeys(parents, obj, n - 1, x);
      if Up(parents, obj, n) == Some(x) {
        assert AncestorMap(parents, obj, n) == AncestorMap(parents, obj, n - 1)[x := n - 1];
        assert x in AncestorMap(parents, obj, n);
        assert exists j :: 1 <= j <= n && Up(parents, obj, j) == Some(x);
      } else if exists j :: 1 <= j <= n && Up(parents, obj, j) == Some(x) {
        var j :| 1 <= j <= n && Up(parents, obj, j) == Some(x);
        assert j < n;
      }
    }
  }

  /** A walk that meets no object twice records step `j` at distance
      `j - 1`: the parent at 0, the grandparent at 1, and so on. */
  lemma {:induction false} AncestorDistances(parents: map<string, string>, obj: string, n: nat, j: nat)
    requires 1 <= j <= n && Up(parents, obj, n).Some?
    requires forall i, k :: 1 <= i < k <= n ==> Up(parents, obj, i) != Up(parents, obj, k)
    ensures Up(parents, obj, j).Some? && Up(parents, obj, j).value in AncestorMap(parents, obj, n)
    ensures AncestorMap(parents, obj, n)[Up(parents, obj, j).value] == j - 1
  {
    UpSteps(parents, obj, n);
    AncestorKeys(parents, obj, n, Up(parents, obj, j).value);
    if j < n {
      AncestorDistances(parents, obj, n - 1, j);
      assert Up(parents, obj, j) != Up(parents, obj, n);
    }
  }

  /** COM is never recorded when it orbits nothing: the walk stops before
      it, and an object whose parent is COM fails on COM's parent. */
  lemma AncestorsOmitCom(parents: map<string, string>, obj: string, n: nat)
    requires Com !in parents && ComAt(parents, obj, n)
    ensures Com !in AncestorMap(parents, obj, n)
  {
    UpSteps(parents, obj, n + 1);
    AncestorKeys(parents, obj, n, Com);
    assert Up(parents, obj, 2).Some?;
    assert Up(parents, obj, 1) != Some(Com);
  }

  /** The walk's length is decided by the map: `calc_ancestors` has a
      single answer. */
  lemma ComAtUnique(parents: map<string, string>, obj: string, n1: nat, n2: nat)
    requires ComAt(parents, obj, n1) && ComAt(parents, obj, n2)
    ensures n1 == n2
  {
  }

  // ---------------------------------------------------------------------
  // `min_transfers` (six.rs:66-86)
  // ---------------------------------------------------------------------

  /** The pairs `(mass, focus)` in order. */
  function ParentPairs(orbits: seq<Orbit>): (r: seq<(string, string)>)
    ensures |r| == |orbits|
    ensures forall i :: 0 <= i < |orbits| ==> r[i] == (orbits[i].mass, orbits[i].focus)
  {
    if orbits == [] then []
    else ParentPairs(orbits[..|orbits| - 1]) + [(orbits[|orbits| - 1].mass, orbits[|orbits| - 1].focus)]
  }

  /** The child-to-parent map of `min_transfers`' first loop: the keys are
      the masses, and a mass listed twice keeps its last focus. */
  method ParentMap(orbits: seq<Orbit>) returns (parents: map<string, string>)
    ensures parents == InsertAll(ParentPairs(orbits))
  {
    parents := map[];
    for k := 0 to |orbits|
      invariant parents == InsertAll(ParentPairs(orbits[..k]))
    {
      assert orbits[..k + 1][..k] == orbits[..k];
      parents := parents[orbits[k].mass := orbits[k].focus];
    }
    assert orbits[..|orbits|] == orbits;
  }

  /** The objects both walks meet. */
  function Common(you: map<string, nat>, san: map<string, nat>): set<string>
  {
    you.Keys * san.Keys
  }

  /** `a` is a common object nearest YOU. */
  predicate Nearest(you: map<string, nat>, san: map<string, nat>, a: string)
  {
    a in Common(you, san) && forall b :: b in Common(you, san) ==> you[a] <= you[b]
  }

  /** The answer from the two walks: the distances to a common object
      nearest YOU, or -1 when the walks never meet. */
  method NearestCommon(you: map<string, nat>, san: map<string, nat>) returns (t: int)
    ensures Common(you, san) == {} <==> t == -1
    ensures Common(you, san) != {} ==> exists a :: Nearest(you, san, a) && t == you[a] + san[a]
  {
    var common := Common(you, san);
    if common == {} {
      return -1;
    }
    var best :| best in common;
    var rest := common - {best};
    while rest != {}
      invariant best in common && rest <= common
      invariant forall b :: b in common - rest ==> you[best] <= you[b]
      decreases |rest|
    {
      var b :| b in rest;
      if you[b] < you[best] {
        best := b;
      }
      rest := rest - {b};
    }
    assert Nearest(you, san, best);
    return you[best] + san[best];
  }

  /** `min_transfers`: the two walks up from YOU and SAN and the sum of
      their distances to a common object nearest YOU, -1 when they never
      meet.  Going through the objects in order of their distance from YOU
      and stopping at the first one SAN's walk knows finds such an object;
      which one among equally near objects is left open, as the source's
      hash order leaves it. */
  method MinTransfers(orbits: seq<Orbit>, fuel: nat) returns (r: Result<int>)
    ensures r.Ok? ==> exists ny, ns ::
      (ComAt(InsertAll(ParentPairs(orbits)), You, ny) && ComAt(InsertAll(ParentPairs(orbits)), San, ns)
      && Answer(AncestorMap(InsertAll(ParentPairs(orbits)), You, ny),
                AncestorMap(InsertAll(ParentPairs(orbits)), San, ns), r.value))
  {
    var parents := ParentMap(orbits);
    var you :- CalcAncestors(parents, You, fuel);
    var san :- CalcAncestors(parents, San, fuel);
    var t := NearestCommon(you, san);
    return Ok(t);
  }

  /** `t` is the answer for the walks `you` and `san`. */
  predicate Answer(you: map<string, nat>, san: map<string, nat>, t: int)
  {
    if Common(you, san) == {} then t == -1
    else exists a :: a in Common(you, san) && Nearest(you, san, a) && t == you[a] + san[a]
  }

  // ---------------------------------------------------------------------
  // `six_a`, `six_b` (six.rs:4-19)
  // ---------------------------------------------------------------------

  /** Part one: the total number of direct and indirect orbits. */
  method SixA(lines: seq<string>, fuel: nat) returns (r: Result<nat>)
    ensures !Orbits(lines).Ok? ==> r == Orbits(lines).PropagateFailure()
    ensures r.Ok? ==> Orbits(lines).Ok? && exists depth: map<string, nat> ::
      (depth.Keys == Masses(Orbits(lines).value) && Justified(Orbits(lines).value, depth) && r.value == MapSum(depth))
    ensures (Orbits(lines).Ok? && Distinct(Orbits(lines).value)
      && forall i: nat :: i < |Orbits(lines).value| ==> ReachesWithin(Orbits(lines).value, i, fuel)) ==> r.Ok?
  {
    var orbits :- LinesToOrbits(lines);
    r := TotalOrbits(orbits, fuel);
  }

  /** Part two: the number of orbital transfers from the object YOU
      orbits to the object SAN orbits. */
  method SixB(lines: seq<string>, fuel: nat) returns (r: Result<int>)
    ensures !Orbits(lines).Ok? ==> r == Orbits(lines).PropagateFailure()
    ensures r.Ok? ==> Orbits(lines).Ok? && exists ny, ns ::
      (ComAt(InsertAll(ParentPairs(Orbits(lines).value)), You, ny) && ComAt(InsertAll(ParentPairs(Orbits(lines).value)), San, ns)
      && Answer(AncestorMap(InsertAll(ParentPairs(Orbits(lines).value)), You, ny),
                AncestorMap(InsertAll(ParentPairs(Orbits(lines).value)), San, ns), r.value))
  {
    var orbits :- LinesToOrbits(lines);
    r := MinTransfers(orbits, fuel);
  }

  // ---------------------------------------------------------------------
  // The example of `test_six_a` (six.rs:110-113)
  // ---------------------------------------------------------------------

  /** The orbits of the example, one line each: "COM)B", "B)C", "C)D",
      "D)E", "E)F", "B)G", "G)H", "D)I", "E)J", "J)K", "K)L". */
  predicate Example(o: seq<Orbit>)
  {
    |o| == 11 && o[0] == Orbit("COM", "B") && o[1] == Orbit("B", "C") && o[2] == Orbit("C", "D")
    && o[3] == Orbit("D", "E") && o[4] == Orbit("E", "F") && o[5] == Orbit("B", "G") && o[6] == Orbit("G", "H")
    && o[7] == Orbit("D", "I") && o[8] == Orbit("E", "J") && o[9] == Orbit("J", "K") && o[10] == Orbit("K", "L")
  }

  /** An orbit about the mass of an orbit at depth `d` is at depth `d + 1`. */
  lemma ReachesNext(orbits: seq<Orbit>, i: nat, j: nat, d: nat)
    requires i < |orbits| && j < |orbits| && orbits[i].focus != Com && orbits[j].mass == orbits[i].focus
    requires Reaches(orbits, j, d)
    ensures Reaches(orbits, i, d + 1)
  {
  }

  /** The example's tree: who orbits whom. */
  predicate ExampleTree(o: seq<Orbit>)
  {
    |o| == 11 && o[0].focus == Com &&
    o[1].focus != Com && o[1].focus == o[0].mass && o[2].focus != Com && o[2].focus == o[1].mass
    && o[3].focus != Com && o[3].focus == o[2].mass && o[4].focus != Com && o[4].focus == o[3].mass
    && o[5].focus != Com && o[5].focus == o[0].mass && o[6].focus != Com && o[6].focus == o[5].mass
    && o[7].focus != Com && o[7].focus == o[2].mass && o[8].focus != Com && o[8].focus == o[3].mass
    && o[9].focus != Com && o[9].focus == o[8].mass && o[10].focus != Com && o[10].focus == o[9].mass
  }

  lemma ExampleShape(o: seq<Orbit>)
    requires Example(o)
    ensures ExampleTree(o)
  {
  }

  lemma ExampleUnique(o: seq<Orbit>)
    requires Example(o)
    ensures UniqueMasses(o) && Distinct(o)
  {
  }

  /** `test_six_a`: every answer `total_orbits` can give on the example is
      42 ... */
  lemma ExampleTotal(o: seq<Orbit>, depth: map<string, nat>)
    requires Example(o) && depth.Keys == Masses(o) && Justified(o, depth)
    ensures MapSum(depth) == 42
  {
    ExampleUnique(o);
    ExampleShape(o);
    TreeTotal(o, depth);
  }

  lemma TreeTotal(o: seq<Orbit>, depth: map<string, nat>)
    requires ExampleTree(o) && UniqueMasses(o) && depth.Keys == Masses(o) && Justified(o, depth)
    ensures MapSum(depth) == 42
  {
    MapSumOrbits(o, depth);
    TreeDepths(o, depth);
    TreeSum(DepthsOf(o, depth));
  }

  /** The depths of the example's orbits, in the order of its lines. */
  lemma TreeDepths(o: seq<Orbit>, depth: map<string, nat>)
    requires ExampleTree(o) && UniqueMasses(o) && depth.Keys == Masses(o) && Justified(o, depth)
    ensures var ds := DepthsOf(o, depth);
      ds[0] == 1 && ds[1] == 2 && ds[2] == 3 && ds[3] == 4 && ds[4] == 5 && ds[5] == 2
      && ds[6] == 3 && ds[7] == 4 && ds[8] == 5 && ds[9] == 6 && ds[10] == 7
  {
    DepthRoot(o, depth, 0);
    DepthStep(o, depth, 1, 0);
    DepthStep(o, depth, 2, 1);
    DepthStep(o, depth, 3, 2);
    DepthStep(o, depth, 4, 3);
    DepthStep(o, depth, 5, 0);
    DepthStep(o, depth, 6, 5);
    DepthStep(o, depth, 7, 2);
    DepthStep(o, depth, 8, 3);
    DepthStep(o, depth, 9, 8);
    DepthStep(o, depth, 10, 9);
  }

  lemma TreeSum(ds: seq<nat>)
    requires |ds| == 11 && ds[0] == 1 && ds[1] == 2 && ds[2] == 3 && ds[3] == 4 && ds[4] == 5 && ds[5] == 2
    requires ds[6] == 3 && ds[7] == 4 && ds[8] == 5 && ds[9] == 6 && ds[10] == 7
    ensures Sum(ds) == 42
  {
    assert ds[..0] == [] && ds[..11] == ds;
    SumSnoc(ds, 0);
    SumSnoc(ds, 1);
    SumSnoc(ds, 2);
    SumSnoc(ds, 3);
    SumSnoc(ds, 4);
    SumSnoc(ds, 5);
    SumSnoc(ds, 6);
    SumSnoc(ds, 7);
    SumSnoc(ds, 8);
    SumSnoc(ds, 9);
    SumSnoc(ds, 10);
  }

  /** ... and seven passes are enough to give one. */
  lemma ExampleTerminates(o: seq<Orbit>)
    requires Example(o)
    ensures Distinct(o) && forall i: nat :: i < |o| ==> ReachesWithin(o, i, 7)
  {
    ExampleUnique(o);
    ExampleShape(o);
    TreeWithin(o);
  }

  lemma TreeWithin(o: seq<Orbit>)
    requires ExampleTree(o)
    ensures forall i: nat :: i < |o| ==> ReachesWithin(o, i, 7)
  {
    forall i: nat | i < |o|
      ensures ReachesWithin(o, i, 7)
    {
      TreeReaches(o, i);
    }
  }

  /** The line of the example that orbit `i` is about ... */
  function TreeFocus(i: nat): (j: nat)
    requires 0 < i < 11
    ensures j < i
  {
    if i == 5 then 0 else if i == 7 then 2 else if i == 8 then 3 else i - 1
  }

  /** ... and the depth of orbit `i`, */
  function TreeDepth(i: nat): (d: nat)
    requires i < 11
    ensures 1 <= d <= 7
  {
    if i == 0 then 1 else if i == 1 then 2 else if i == 2 then 3 else if i == 3 then 4 else if i == 4 then 5 else if i == 5 then 2 else if i == 6 then 3 else if i == 7 then 4 else if i == 8 then 5 else if i == 9 then 6 else 7
  }

  /** one more than the depth of the orbit it is about. */
  lemma TreeDepthStep(i: nat)
    requires 0 < i < 11
    ensures TreeDepth(i) == TreeDepth(TreeFocus(i)) + 1
  {
  }

  /** Line `i` of the example is about the mass of line `TreeFocus(i)`. */
  lemma TreeLink(o: seq<Orbit>, i: nat)
    requires ExampleTree(o) && 0 < i < 11
    ensures o[i].focus != Com && o[TreeFocus(i)].mass == o[i].focus
  {
  }

  lemma {:induction false} TreeReaches(o: seq<Orbit>, i: nat)
    requires ExampleTree(o) && i < 11
    ensures Reaches(o, i, TreeDepth(i))
  {
    if i > 0 {
      var j := TreeFocus(i);
      TreeReaches(o, j);
      TreeDepthStep(i);
      TreeLink(o, i);
      ReachesNext(o, i, j, TreeDepth(j));
    }
  }

  /** The example's lines read as its orbits. */
  lemma ExampleRead(line: string, o: Orbit)
    requires ')' !in o.focus && ')' !in o.mass && line == o.focus + ")" + o.mass
    ensures OrbitOfLine(line) == Ok(o)
  {
    OrbitOfLineShown(o);
  }
}
