/**
 * Day 7 (src/seven.rs), `heaps` only: Heap's algorithm lists the
 * orderings of the first `n` elements of a vector by swapping in place,
 * one swap between consecutive orderings.  `seven_a` runs an amplifier
 * chain for each ordering of the phases 0..4.
 */
module Seven {
  import opened Wrappers

  /** What a call of `heaps` produces: the orderings it collects and the
      vector it leaves behind. */
  datatype Run = Run(out: seq<seq<int>>, final: seq<int>)

  /** `a.swap(i, j)`, which panics on an index past the end. */
  function Swap(s: seq<int>, i: nat, j: nat): Result<seq<int>>
  {
    if i < |s| && j < |s| then Ok(s[i := s[j]][j := s[i]]) else Err(IndexOutOfBounds)
  }

  /** The swap after the `i`-th recursive call: `(i, n-1)` for an even
      `n`, `(0, n-1)` for an odd one. */
  function SwapAfter(n: nat, i: nat, s: seq<int>): Result<seq<int>>
    requires n >= 1
  {
    if n % 2 == 0 then Swap(s, i, n - 1) else Swap(s, 0, n - 1)
  }

  /** `heaps(n, a)` on the vector `s`.  `0 .. n-1` underflows for `n == 0`. */
  function Heaps(n: nat, s: seq<int>): Result<Run>
    decreases n, 1
  {
    if n == 1 then Ok(Run([s], s))
    else if n == 0 then Err(SubtractOverflow)
    else HeapsFrom(n, 0, s, [])
  }

  /** The `for` loop from iteration `i` on, with `acc` collected so far;
      after the last iteration comes the final recursive call. */
  function HeapsFrom(n: nat, i: nat, s: seq<int>, acc: seq<seq<int>>): Result<Run>
    requires n >= 2 && i <= n - 1
    decreases n, 0, n - 1 - i
  {
    var sub :- Heaps(n - 1, s);
    if i == n - 1 then Ok(Run(acc + sub.out, sub.final))
    else
      var next :- SwapAfter(n, i, sub.final);
      HeapsFrom(n, i + 1, next, acc + sub.out)
  }

  /** The orderings alone, as `heaps` returns them. */
  function Outputs(h: Result<Run>): Result<seq<seq<int>>>
  {
    match h
    case Ok(run) => Ok(run.out)
    case Err(e) => Err(e)
    case OutOfFuel => OutOfFuel
  }

  function Fact(n: nat): nat
  {
    if n == 0 then 1 else n * Fact(n - 1)
  }

  /** `t` rearranges `s0` and leaves its positions from `n` on alone. */
  predicate Like(s0: seq<int>, n: nat, t: seq<int>)
  {
    n <= |s0| && |t| == |s0| && multiset(t) == multiset(s0) && t[n..] == s0[n..]
  }

  lemma LikeTrans(s0: seq<int>, s: seq<int>, t: seq<int>, n: nat)
    requires Like(s0, n, s) && Like(s, n, t)
    ensures Like(s0, n, t)
  {
  }

  lemma LikeWiden(s0: seq<int>, t: seq<int>, n: nat)
    requires Like(s0, n, t) && n + 1 <= |s0|
    ensures Like(s0, n + 1, t)
  {
    assert t[n + 1..] == t[n..][1..];
    assert s0[n + 1..] == s0[n..][1..];
  }

  /** Every ordering in `xs` is like `s0`. */
  predicate AllLike(s0: seq<int>, n: nat, xs: seq<seq<int>>)
  {
    forall k :: 0 <= k < |xs| ==> Like(s0, n, xs[k])
  }

  lemma AllLikeAppend(s0: seq<int>, n: nat, xs: seq<seq<int>>, ys: seq<seq<int>>)
    requires AllLike(s0, n, xs) && AllLike(s0, n, ys)
    ensures AllLike(s0, n, xs + ys)
  {
    forall k | 0 <= k < |xs + ys|
      ensures Like(s0, n, (xs + ys)[k])
    {
      if k >= |xs| {
        assert (xs + ys)[k] == ys[k - |xs|];
      }
    }
  }

  /** What a call one level down, on a vector like `s0`, yields is like
      `s0` as well. */
  lemma AllLikeLift(s0: seq<int>, s: seq<int>, n: nat, xs: seq<seq<int>>)
    requires n >= 1 && Like(s0, n, s) && AllLike(s, n - 1, xs)
    ensures AllLike(s0, n, xs)
  {
    forall k | 0 <= k < |xs|
      ensures Like(s0, n, xs[k])
    {
      LikeWiden(s, xs[k], n - 1);
      LikeTrans(s0, s, xs[k], n);
    }
  }

  lemma SwapMultiset(s: seq<int>, i: nat, j: nat)
    requires i < |s| && j < |s|
    ensures multiset(s[i := s[j]][j := s[i]]) == multiset(s)
  {
    var u := s[i := s[j]];
    assert multiset(u) == multiset(s) - multiset{s[i]} + multiset{s[j]};
    assert u[j] == s[j];
  }

  /** Swapping two positions below `n` keeps a vector like `s0`. */
  lemma SwapLike(s0: seq<int>, s: seq<int>, n: nat, i: nat, j: nat)
    requires Like(s0, n, s) && i < n && j < n
    ensures Swap(s, i, j).Ok? && Like(s0, n, Swap(s, i, j).value)
  {
    var t := s[i := s[j]][j := s[i]];
    assert t[n..] == s[n..];
    SwapMultiset(s, i, j);
  }

  /** For `1 <= n <= |s|`, `heaps(n, s)` succeeds with `n!` orderings,
      each of them and the vector left behind a permutation of `s` that
      keeps the positions from `n` on where they were. */
  lemma {:induction false} HeapsPerms(n: nat, s: seq<int>)
    requires 1 <= n <= |s|
    ensures Heaps(n, s).Ok?
    ensures |Heaps(n, s).value.out| == Fact(n)
    ensures AllLike(s, n, Heaps(n, s).value.out)
    ensures Like(s, n, Heaps(n, s).value.final)
    decreases n, 1
  {
    if n >= 2 {
      HeapsFromPerms(n, 0, s, s, []);
      assert Fact(n) == n * Fact(n - 1);
    }
  }

  /** What the loop from iteration `i` on promises: it adds `(n - i) * (n-1)!` orderings like `s0`,
      and leaves a vector like `s0`. */
  predicate LoopDone(n: nat, i: nat, s0: seq<int>, acc: seq<seq<int>>, h: Result<Run>)
    requires n >= 1
  {
    && h.Ok?
    && |h.value.out| == |acc| + (n - i) * Fact(n - 1)
    && AllLike(s0, n, h.value.out)
    && Like(s0, n, h.value.final)
  }

  /** One iteration of the loop, unfolded. */
  lemma HeapsFromStep(n: nat, i: nat, s: seq<int>, acc: seq<seq<int>>)
    requires n >= 2 && i < n - 1 && Heaps(n - 1, s).Ok?
    requires SwapAfter(n, i, Heaps(n - 1, s).value.final).Ok?
    ensures HeapsFrom(n, i, s, acc)
         == HeapsFrom(n, i + 1, SwapAfter(n, i, Heaps(n - 1, s).value.final).value, acc + Heaps(n - 1, s).value.out)
  {
  }

  /** The last recursive call, unfolded. */
  lemma HeapsFromEnd(n: nat, s: seq<int>, acc: seq<seq<int>>)
    requires n >= 2 && Heaps(n - 1, s).Ok?
    ensures HeapsFrom(n, n - 1, s, acc) == Ok(Run(acc + Heaps(n - 1, s).value.out, Heaps(n - 1, s).value.final))
  {
  }

  lemma MulStep(k: nat, f: nat)
    ensures (k + 1) * f == f + k * f
  {
  }

  /** The last recursive call, after the loop. */
  lemma HeapsFromLast(n: nat, s0: seq<int>, s: seq<int>, acc: seq<seq<int>>)
    requires 2 <= n <= |s0| && Heaps(n - 1, s).Ok? && |Heaps(n - 1, s).value.out| == Fact(n - 1)
    requires AllLike(s0, n, acc + Heaps(n - 1, s).value.out) && Like(s0, n, Heaps(n - 1, s).value.final)
    ensures LoopDone(n, n - 1, s0, acc, HeapsFrom(n, n - 1, s, acc))
  {
    var sub := Heaps(n - 1, s).value;
    assert HeapsFrom(n, n - 1, s, acc) == Ok(Run(acc + sub.out, sub.final));
  }

  /** The recursive call of one iteration, on a vector like `s0`. */
  lemma {:induction false} SubLike(n: nat, s0: seq<int>, s: seq<int>, acc: seq<seq<int>>)
    requires 2 <= n <= |s0| && Like(s0, n, s) && AllLike(s0, n, acc)
    ensures Heaps(n - 1, s).Ok? && |Heaps(n - 1, s).value.out| == Fact(n - 1)
    ensures AllLike(s0, n, acc + Heaps(n - 1, s).value.out)
    ensures Like(s0, n, Heaps(n - 1, s).value.final)
    decreases n, 0, 0
  {
    HeapsPerms(n - 1, s);
    var sub := Heaps(n - 1, s).value;
    AllLikeLift(s0, s, n, sub.out);
    LikeWiden(s, sub.final, n - 1);
    LikeTrans(s0, s, sub.final, n);
    AllLikeAppend(s0, n, acc, sub.out);
  }

  lemma {:induction false} HeapsFromPerms(n: nat, i: nat, s0: seq<int>, s: seq<int>, acc: seq<seq<int>>)
    requires 2 <= n <= |s0| && i <= n - 1 && Like(s0, n, s) && AllLike(s0, n, acc)
    ensures LoopDone(n, i, s0, acc, HeapsFrom(n, i, s, acc))
    decreases n, 0, n - i
  {
    SubLike(n, s0, s, acc);
    var sub := Heaps(n - 1, s).value;
    if i == n - 1 {
      HeapsFromLast(n, s0, s, acc);
    } else {
      SwapLike(s0, sub.final, n, if n % 2 == 0 then i else 0, n - 1);
      var next := SwapAfter(n, i, sub.final).value;
      var acc' := acc + sub.out;
      HeapsFromPerms(n, i + 1, s0, next, acc');
      HeapsFromStep(n, i, s, acc);
      MulStep(n - (i + 1), Fact(n - 1));
    }
  }

  /** `heaps(0, _)` underflows computing `n - 1`; for `n >= 2` past the
      end of the vector the first out-of-range swap panics. */
  lemma {:induction false} HeapsErrors(n: nat, s: seq<int>)
    requires n == 0 || (n >= 2 && n > |s|)
    ensures n == 0 ==> Heaps(n, s) == Err(SubtractOverflow)
    ensures n != 0 ==> Heaps(n, s) == Err(IndexOutOfBounds)
  {
    if n >= 2 {
      if n - 1 >= 2 && n - 1 > |s| {
        HeapsErrors(n - 1, s);
      } else if n - 1 <= |s| {
        HeapsPerms(n - 1, s);
      }
      assert Heaps(n - 1, s).Ok? ==> |Heaps(n - 1, s).value.final| == |s|;
    }
  }

  /** The loop keeps what it has collected in front. */
  lemma {:induction false} HeapsFromPrefix(n: nat, i: nat, s: seq<int>, acc: seq<seq<int>>)
    requires n >= 2 && i <= n - 1 && HeapsFrom(n, i, s, acc).Ok?
    ensures acc <= HeapsFrom(n, i, s, acc).value.out
    decreases n - 1 - i
  {
    var sub := Heaps(n - 1, s).value;
    if i < n - 1 {
      var next := SwapAfter(n, i, sub.final).value;
      HeapsFromStep(n, i, s, acc);
      HeapsFromPrefix(n, i + 1, next, acc + sub.out);
      assert acc <= acc + sub.out;
    }
  }

  /** The first ordering collected is the vector as it came in. */
  lemma {:induction false} HeapsFirst(n: nat, s: seq<int>)
    requires 1 <= n <= |s|
    ensures Heaps(n, s).Ok? && Heaps(n, s).value.out != [] && Heaps(n, s).value.out[0] == s
    decreases n
  {
    HeapsPerms(n, s);
    if n >= 2 {
      HeapsFirst(n - 1, s);
      var sub := Heaps(n - 1, s).value;
      var next := SwapAfter(n, 0, sub.final).value;
      HeapsFromStep(n, 0, s, []);
      HeapsFromPrefix(n, 1, next, [] + sub.out);
    }
  }

  /** `a.swap(i, j)` on the array. */
  method SwapIn(a: array<int>, i: nat, j: nat) returns (ok: bool)
    modifies a
    ensures ok == Swap(old(a[..]), i, j).Ok?
    ensures ok ==> a[..] == Swap(old(a[..]), i, j).value
    ensures !ok ==> a[..] == old(a[..])
  {
    if i < a.Length && j < a.Length {
      a[i], a[j] := a[j], a[i];
      ok := true;
    } else {
      ok := false;
    }
  }

  /** `heaps(n, a)`: on success the orderings `Heaps` lists, and `a` left
      as `Heaps` leaves it. */
  method HeapsIn(n: nat, a: array<int>) returns (r: Result<seq<seq<int>>>)
    modifies a
    ensures r == Outputs(Heaps(n, old(a[..])))
    ensures Heaps(n, old(a[..])).Ok? ==> a[..] == Heaps(n, old(a[..])).value.final
    decreases n
  {
    if n == 1 {
      return Ok([a[..]]);
    }
    if n == 0 {
      return Err(SubtractOverflow);
    }
    ghost var s0 := a[..];
    var ret: seq<seq<int>> := [];
    for i := 0 to n - 1
      invariant HeapsFrom(n, i, a[..], ret) == Heaps(n, s0)
    {
      ghost var pre := a[..];
      var sub := HeapsIn(n - 1, a);
      if !sub.Ok? {
        return sub;
      }
      ret := ret + sub.value;
      var ok := SwapIn(a, if n % 2 == 0 then i else 0, n - 1);
      if !ok {
        return Err(IndexOutOfBounds);
      }
    }
    var last := HeapsIn(n - 1, a);
    if !last.Ok? {
      return last;
    }
    ret := ret + last.value;
    r := Ok(ret);
  }

  /** On three elements the six orderings come out in Heap's order, each
      once, and the vector is left reversed. */
  lemma HeapsThree(a: int, b: int, c: int)
    ensures Heaps(3, [a, b, c])
         == Ok(Run([[a, b, c], [b, a, c], [c, a, b], [a, c, b], [b, c, a], [c, b, a]], [c, b, a]))
  {
    HeapsTwo(a, b, c);
    HeapsTwo(c, a, b);
    HeapsTwo(b, c, a);
    SwapEnds(b, a, c, 0);
    SwapEnds(a, c, b, 1);
    HeapsFromStep(3, 0, [a, b, c], []);
    assert [] + [[a, b, c], [b, a, c]] == [[a, b, c], [b, a, c]];
    HeapsFromStep(3, 1, [c, a, b], [[a, b, c], [b, a, c]]);
    assert [[a, b, c], [b, a, c]] + [[c, a, b], [a, c, b]] == [[a, b, c], [b, a, c], [c, a, b], [a, c, b]];
    HeapsFromEnd(3, [b, c, a], [[a, b, c], [b, a, c], [c, a, b], [a, c, b]]);
    assert Heaps(3, [a, b, c]) == HeapsFrom(3, 2, [b, c, a], [[a, b, c], [b, a, c], [c, a, b], [a, c, b]]);
    assert [[a, b, c], [b, a, c], [c, a, b], [a, c, b]] + [[b, c, a], [c, b, a]]
        == [[a, b, c], [b, a, c], [c, a, b], [a, c, b], [b, c, a], [c, b, a]];
  }

  /** On three elements every swap of `heaps(3, _)` exchanges the ends. */
  lemma SwapEnds(x: int, y: int, z: int, i: nat)
    ensures SwapAfter(3, i, [x, y, z]) == Ok([z, y, x])
  {
    var s := [x, y, z];
    assert s[0 := s[2]][2 := s[0]] == [z, y, x];
  }

  lemma HeapsTwo(x: int, y: int, z: int)
    ensures Heaps(2, [x, y, z]) == Ok(Run([[x, y, z], [y, x, z]], [y, x, z]))
  {
    var s := [x, y, z];
    assert s[0 := s[1]][1 := s[0]] == [y, x, z];
    assert SwapAfter(2, 0, s) == Ok([y, x, z]);
    assert Heaps(1, s) == Ok(Run([s], s));
    assert Heaps(1, [y, x, z]) == Ok(Run([[y, x, z]], [y, x, z]));
    HeapsFromStep(2, 0, s, []);
    assert [] + [s] == [s];
    HeapsFromEnd(2, [y, x, z], [s]);
    assert Heaps(2, s) == HeapsFrom(2, 1, [y, x, z], [s]);
    assert [s] + [[y, x, z]] == [[x, y, z], [y, x, z]];
  }
}
