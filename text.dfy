/**
 * The few pieces of Rust's `str` API that the puzzle parsers use:
 * `trim`, `trim_matches`, `split`, `splitn(2, _)`, `split_at(1)` and
 * `parse` into `usize` and `i32`.  Strings are sequences of characters;
 * byte offsets are not modelled, so `split_at(1)` splits after the first
 * character rather than the first byte.
 */
module Text {
  import opened Wrappers

  /** Rust's `char::is_whitespace`: the Unicode White_Space property. */
  predicate IsWhitespace(c: char)
  {
    ('\t' <= c <= '\r') || c == ' ' || c == '\U{0085}' || c == '\U{00A0}' || c == '\U{1680}'
    || ('\U{2000}' <= c <= '\U{200A}') || c == '\U{2028}' || c == '\U{2029}' || c == '\U{202F}'
    || c == '\U{205F}' || c == '\U{3000}'
  }

  /** Number of leading characters of `s` that satisfy `p`. */
  function LeadingCount(s: string, p: char -> bool): (n: nat)
    ensures n <= |s|
    ensures forall i :: 0 <= i < n ==> p(s[i])
    ensures n < |s| ==> !p(s[n])
  {
    if s == [] || !p(s[0]) then 0 else 1 + LeadingCount(s[1..], p)
  }

  /** Number of trailing characters of `s` that satisfy `p`. */
  function TrailingCount(s: string, p: char -> bool): (n: nat)
    ensures n <= |s|
    ensures forall i :: |s| - n <= i < |s| ==> p(s[i])
    ensures n < |s| ==> !p(s[|s| - n - 1])
  {
    if s == [] || !p(s[|s| - 1]) then 0 else 1 + TrailingCount(s[..|s| - 1], p)
  }

  /** Rust's `str::trim_matches(p)`: strips every leading and trailing
      character satisfying `p`. */
  function TrimBy(s: string, p: char -> bool): (r: string)
  {
    var lead := LeadingCount(s, p);
    var rest := s[lead..];
    rest[..|rest| - TrailingCount(rest, p)]
  }

  /** What `TrimBy` keeps is a contiguous piece of `s` whose ends do not
      satisfy `p`, and everything it cuts off does. */
  lemma TrimBySpec(s: string, p: char -> bool)
    ensures var r := TrimBy(s, p);
      exists i, j :: 0 <= i <= j <= |s| && r == s[i..j]
        && (forall k :: 0 <= k < i ==> p(s[k]))
        && (forall k :: j <= k < |s| ==> p(s[k]))
        && (r != [] ==> !p(r[0]) && !p(r[|r| - 1]))
  {
    var lead := LeadingCount(s, p);
    var rest := s[lead..];
    var t := TrailingCount(rest, p);
    var j := lead + |rest| - t;
    assert TrimBy(s, p) == s[lead..j];
    assert forall k :: j <= k < |s| ==> p(s[k]) by {
      forall k | j <= k < |s| ensures p(s[k]) { assert s[k] == rest[k - lead]; }
    }
    if lead < j {
      assert s[lead..j][0] == s[lead];
      assert s[lead..j][j - lead - 1] == rest[|rest| - t - 1];
    }
  }

  /** A string whose ends do not satisfy `p` is left as it is. */
  lemma TrimByUnchanged(s: string, p: char -> bool)
    requires s != [] ==> !p(s[0]) && !p(s[|s| - 1])
    ensures TrimBy(s, p) == s
  {
    if s != [] {
      assert LeadingCount(s, p) == 0;
      assert s[0..] == s;
      assert TrailingCount(s, p) == 0;
    }
  }

  /** Trimming twice is trimming once. */
  lemma TrimByIdempotent(s: string, p: char -> bool)
    ensures TrimBy(TrimBy(s, p), p) == TrimBy(s, p)
  {
    TrimBySpec(s, p);
    TrimByUnchanged(TrimBy(s, p), p);
  }

  /** Rust's `str::trim`. */
  function Trim(s: string): string
  {
    TrimBy(s, IsWhitespace)
  }

  /** Does `sep` occur in `s` at position `i`? */
  predicate OccursAt(s: string, sep: string, i: int)
  {
    0 <= i && i + |sep| <= |s| && s[i..i + |sep|] == sep
  }

  lemma OccursAtTail(s: string, sep: string, k: int)
    requires |s| > 0 && k >= 1
    ensures OccursAt(s, sep, k) <==> OccursAt(s[1..], sep, k - 1)
  {
    if 0 <= k && k + |sep| <= |s| {
      assert s[1..][k - 1..k - 1 + |sep|] == s[k..k + |sep|];
    }
  }

  /** Position of the leftmost occurrence of `sep` in `s`. */
  function FindFirst(s: string, sep: string): (r: Option<nat>)
    requires |sep| > 0
    ensures r.Some? ==> OccursAt(s, sep, r.value) && forall i :: 0 <= i < r.value ==> !OccursAt(s, sep, i)
    ensures r.None? ==> forall i :: 0 <= i <= |s| - |sep| ==> !OccursAt(s, sep, i)
    decreases |s|
  {
    if |s| < |sep| then None
    else if s[..|sep|] == sep then Some(0)
    else
      var tail := FindFirst(s[1..], sep);
      assert forall k :: 1 <= k ==> (OccursAt(s, sep, k) <==> OccursAt(s[1..], sep, k - 1)) by {
        forall k | 1 <= k ensures OccursAt(s, sep, k) <==> OccursAt(s[1..], sep, k - 1) {
          OccursAtTail(s, sep, k);
        }
      }
      if tail.None? then None else Some(tail.value + 1)
  }

  /** Rust's `str::split(sep)`: the pieces between the leftmost,
      non-overlapping occurrences of `sep`; there is always at least one. */
  function Split(s: string, sep: string): (r: seq<string>)
    requires |sep| > 0
    ensures |r| >= 1
    decreases |s|
  {
    match FindFirst(s, sep)
    case None => [s]
    case Some(i) => [s[..i]] + Split(s[i + |sep|..], sep)
  }

  /** Rust's `[String]::join(sep)`. */
  function Join(parts: seq<string>, sep: string): string
  {
    if parts == [] then []
    else if |parts| == 1 then parts[0]
    else parts[0] + sep + Join(parts[1..], sep)
  }

  /** Splitting and joining again with the same separator gives back the
      string. */
  lemma {:induction false} JoinSplit(s: string, sep: string)
    requires |sep| > 0
    ensures Join(Split(s, sep), sep) == s
    decreases |s|
  {
    match FindFirst(s, sep)
    case None =>
    case Some(i) =>
      var rest := s[i + |sep|..];
      var parts := Split(s, sep);
      assert parts == [s[..i]] + Split(rest, sep);
      assert parts[1..] == Split(rest, sep);
      assert Join(parts, sep) == s[..i] + sep + Join(Split(rest, sep), sep);
      JoinSplit(rest, sep);
      assert s == s[..i] + sep + rest by {
        assert s[i..i + |sep|] == sep;
        assert s == s[..i] + s[i..i + |sep|] + s[i + |sep|..];
      }
  }

  /** No piece of a split contains the separator. */
  lemma {:induction false} SplitPiecesFree(s: string, sep: string)
    requires |sep| > 0
    ensures forall k, i :: 0 <= k < |Split(s, sep)| ==> !OccursAt(Split(s, sep)[k], sep, i)
    decreases |s|
  {
    match FindFirst(s, sep)
    case None =>
    case Some(i) =>
      var rest := s[i + |sep|..];
      SplitPiecesFree(rest, sep);
      forall j | true ensures !OccursAt(s[..i], sep, j) {
        if OccursAt(s[..i], sep, j) {
          assert s[..i][j..j + |sep|] == s[j..j + |sep|];
          assert OccursAt(s, sep, j);
        }
      }
  }

  /** A one-character separator absent from `p` occurs first right after
      `p`, and nowhere in `p` itself. */
  lemma FirstOccurrence(p: string, c: char, rest: string)
    requires c !in p
    ensures FindFirst(p, [c]) == None
    ensures FindFirst(p + [c] + rest, [c]) == Some(|p|)
  {
    var s := p + [c] + rest;
    forall i | 0 <= i ensures !OccursAt(p, [c], i) && (i < |p| ==> !OccursAt(s, [c], i)) {
      if i < |p| {
        assert s[i..i + 1][0] == p[i];
        assert p[i..i + 1][0] == p[i];
      }
    }
    assert s[|p|..|p| + 1] == [c];
    assert OccursAt(s, [c], |p|);
    var r := FindFirst(s, [c]);
    assert r.Some? && r.value <= |p|;
  }

  /** Joining pieces free of a one-character separator and splitting again
      gives back the pieces. */
  lemma {:induction false} SplitJoin(parts: seq<string>, c: char)
    requires |parts| >= 1
    requires forall k :: 0 <= k < |parts| ==> c !in parts[k]
    ensures Split(Join(parts, [c]), [c]) == parts
    decreases |parts|
  {
    if |parts| == 1 {
      FirstOccurrence(parts[0], c, []);
    } else {
      var rest := Join(parts[1..], [c]);
      var s := parts[0] + [c] + rest;
      assert Join(parts, [c]) == s;
      FirstOccurrence(parts[0], c, rest);
      var j := |parts[0]|;
      assert s[..j] == parts[0];
      assert s[j + 1..] == rest;
      SplitJoin(parts[1..], c);
      assert Split(s, [c]) == [parts[0]] + parts[1..];
    }
  }

  /** Rust's `str::splitn(2, sep)`: the text before the first occurrence of
      `sep` and everything after it, or the whole string when there is none. */
  function SplitOnce(s: string, sep: string): (r: seq<string>)
    requires |sep| > 0
    ensures 1 <= |r| <= 2 && r[0] == Split(s, sep)[0]
    ensures |r| == 2 ==> s == r[0] + sep + r[1]
  {
    match FindFirst(s, sep)
    case None => [s]
    case Some(i) =>
      assert s[i..i + |sep|] == sep;
      assert s == s[..i] + s[i..i + |sep|] + s[i + |sep|..];
      [s[..i], s[i + |sep|..]]
  }

  predicate IsDigit(c: char)
  {
    '0' <= c <= '9'
  }

  predicate AllDigits(s: string)
  {
    forall i :: 0 <= i < |s| ==> IsDigit(s[i])
  }

  /** The value of a string of decimal digits, most significant first. */
  function DigitsValue(s: string): (n: nat)
    requires AllDigits(s)
  {
    if s == [] then 0 else 10 * DigitsValue(s[..|s| - 1]) + (s[|s| - 1] as int - '0' as int)
  }

  /** Rust's `str::parse::<usize>()` on a 64-bit target: an optional `+`
      followed by at least one decimal digit, fitting in 64 bits. */
  function ParseUsize(s: string): (r: Option<nat>)
    ensures r.Some? ==> r.value < 0x1_0000_0000_0000_0000
  {
    var digits := if |s| > 0 && s[0] == '+' then s[1..] else s;
    if digits == [] || !AllDigits(digits) then None
    else
      var n := DigitsValue(digits);
      if n < 0x1_0000_0000_0000_0000 then Some(n) else None
  }

  const I32Min: int := -0x8000_0000
  const I32Max: int := 0x7FFF_FFFF

  /** Rust's `str::parse::<i32>()`: an optional `+` or `-` followed by at
      least one decimal digit, within the 32-bit range. */
  function ParseI32(s: string): (r: Option<int>)
    ensures r.Some? ==> I32Min <= r.value <= I32Max
  {
    var neg := |s| > 0 && s[0] == '-';
    var digits := if |s| > 0 && (s[0] == '+' || s[0] == '-') then s[1..] else s;
    if digits == [] || !AllDigits(digits) then None
    else
      var v: int := DigitsValue(digits);
      var n := if neg then -v else v;
      if I32Min <= n <= I32Max then Some(n) else None
  }

  /** Decimal rendering of a natural number, without leading zeros. */
  function ShowNat(n: nat): (r: string)
    ensures |r| > 0 && AllDigits(r) && r[0] != '+' && r[0] != '-'
  {
    var d := [('0' as int + n % 10) as char];
    if n < 10 then d else ShowNat(n / 10) + d
  }

  /** Decimal rendering of an integer, with a `-` when it is negative. */
  function ShowInt(i: int): string
  {
    if i < 0 then "-" + ShowNat(-i) else ShowNat(i)
  }

  lemma {:induction false} ShowNatValue(n: nat)
    ensures DigitsValue(ShowNat(n)) == n
  {
    var r := ShowNat(n);
    if n >= 10 {
      ShowNatValue(n / 10);
      assert r[..|r| - 1] == ShowNat(n / 10);
    }
  }

  /** `ParseUsize` reads back what `ShowNat` writes. */
  lemma ParseShowUsize(n: nat)
    requires n < 0x1_0000_0000_0000_0000
    ensures ParseUsize(ShowNat(n)) == Some(n)
  {
    ShowNatValue(n);
  }

  /** `ShowInt` writes digits, after a `-` when the number is negative. */
  lemma ShowIntChars(i: int)
    ensures var r := ShowInt(i);
      |r| > 0 && IsDigit(r[|r| - 1]) && (IsDigit(r[0]) || r[0] == '-')
      && forall k :: 0 <= k < |r| ==> IsDigit(r[k]) || r[k] == '-'
  {
    if i < 0 {
      var d := ShowNat(-i);
      assert forall k :: 1 <= k < |ShowInt(i)| ==> ShowInt(i)[k] == d[k - 1];
    }
  }

  /** `ParseI32` reads back what `ShowInt` writes. */
  lemma ParseShowI32(i: int)
    requires I32Min <= i <= I32Max
    ensures ParseI32(ShowInt(i)) == Some(i)
  {
    if i < 0 {
      ShowNatValue(-i);
      assert ShowInt(i)[1..] == ShowNat(-i);
    } else {
      ShowNatValue(i);
    }
  }

  /** Each string parsed by `parse`; the first failure is fatal. */
  function ParseEach<T>(xs: seq<string>, parse: string -> Result<T>): (r: Result<seq<T>>)
    ensures r.Ok? ==> |r.value| == |xs|
  {
    if xs == [] then Ok([])
    else
      var front :- ParseEach(xs[..|xs| - 1], parse);
      var last :- parse(xs[|xs| - 1]);
      Ok(front + [last])
  }

  /** The failure of the first string that does not parse is the failure
      of the whole list. */
  lemma {:induction false} ParseEachFirstFailure<T>(xs: seq<string>, parse: string -> Result<T>, k: nat, n: nat)
    requires k < n <= |xs|
    requires ParseEach(xs[..k], parse).Ok? && !parse(xs[k]).Ok?
    ensures ParseEach(xs[..n], parse) == parse(xs[k]).PropagateFailure()
    decreases n
  {
    var prefix := xs[..n];
    assert prefix[..n - 1] == xs[..n - 1];
    assert prefix[n - 1] == xs[n - 1];
    if n - 1 == k {
      var e := parse(xs[k]);
      assert ParseEach(prefix, parse) == e.PropagateFailure();
    } else {
      ParseEachFirstFailure(xs, parse, k, n - 1);
    }
  }

  /** One more parsed string extends the parsed prefix. */
  lemma ParseEachStep<T>(xs: seq<string>, parse: string -> Result<T>, k: nat, done: seq<T>)
    requires k < |xs| && ParseEach(xs[..k], parse) == Ok(done) && parse(xs[k]).Ok?
    ensures ParseEach(xs[..k + 1], parse) == Ok(done + [parse(xs[k]).value])
  {
    assert xs[..k + 1][..k] == xs[..k];
  }

  /** Every string parses exactly when each of them does, and then the
      results are theirs, in order. */
  lemma {:induction false} ParseEachSpec<T>(xs: seq<string>, parse: string -> Result<T>)
    ensures ParseEach(xs, parse).Ok? <==> forall k :: 0 <= k < |xs| ==> parse(xs[k]).Ok?
    ensures ParseEach(xs, parse).Ok? ==>
      forall k :: 0 <= k < |xs| ==> ParseEach(xs, parse).value[k] == parse(xs[k]).value
  {
    if xs != [] {
      var front := xs[..|xs| - 1];
      ParseEachSpec(front, parse);
      assert forall k :: 0 <= k < |front| ==> front[k] == xs[k];
    }
  }

  /** The items applied to a state in turn by `step`; the first failure is
      fatal. */
  function Fold<S>(s: S, items: seq<string>, step: (S, string) -> Result<S>): Result<S>
  {
    if items == [] then Ok(s)
    else
      var front :- Fold(s, items[..|items| - 1], step);
      step(front, items[|items| - 1])
  }

  /** The failure of the first item that fails is the failure of the fold. */
  lemma {:induction false} FoldFirstFailure<S>(s: S, items: seq<string>, step: (S, string) -> Result<S>, k: nat, n: nat, at: S)
    requires k < n <= |items|
    requires Fold(s, items[..k], step) == Ok(at) && !step(at, items[k]).Ok?
    ensures Fold(s, items[..n], step) == step(at, items[k]).PropagateFailure()
    decreases n
  {
    var prefix := items[..n];
    assert prefix[..n - 1] == items[..n - 1];
    assert prefix[n - 1] == items[n - 1];
    if n - 1 == k {
      var e := step(at, items[k]);
      assert Fold(s, prefix, step) == e.PropagateFailure();
    } else {
      FoldFirstFailure(s, items, step, k, n - 1, at);
    }
  }

  /** One more item applied to the folded prefix. */
  lemma FoldStep<S>(s: S, items: seq<string>, step: (S, string) -> Result<S>, k: nat, at: S)
    requires k < |items| && Fold(s, items[..k], step) == Ok(at)
    ensures Fold(s, items[..k + 1], step) == step(at, items[k])
  {
    assert items[..k + 1][..k] == items[..k];
  }

  /** Three items that all succeed. */
  lemma FoldThree<S>(s: S, a: string, b: string, c: string, step: (S, string) -> Result<S>, s1: S, s2: S)
    requires step(s, a) == Ok(s1) && step(s1, b) == Ok(s2)
    ensures Fold(s, [a, b, c], step) == step(s2, c)
  {
    var items := [a, b, c];
    assert items[..0] == [];
    FoldStep(s, items, step, 0, s);
    FoldStep(s, items, step, 1, s1);
    FoldStep(s, items, step, 2, s2);
    assert items[..3] == items;
  }

  /** Trimming strips one delimiter from each end of a string whose own
      ends are not delimiters. */
  lemma TrimByWrapped(a: char, s: string, b: char, p: char -> bool)
    requires p(a) && p(b) && (s != [] ==> !p(s[0]) && !p(s[|s| - 1]))
    ensures TrimBy([a] + s + [b], p) == s
  {
    var w := [a] + s + [b];
    assert w[1..] == s + [b];
    if s == [] {
      assert w[1..][1..] == [];
      assert LeadingCount(w, p) == 2;
      assert w[2..] == [];
    } else {
      assert (s + [b])[0] == s[0];
      assert LeadingCount(w, p) == 1;
      var rest := w[1..];
      assert rest[..|rest| - 1] == s;
      assert TrailingCount(rest, p) == 1;
    }
  }
}
