/**
 * Day 4 (src/four.rs): six-digit password rules.  A candidate number is
 * split into its six decimal digits; a password must never decrease from
 * left to right and must contain a pair of equal adjacent digits (part
 * one), or a run of equal digits of length exactly two (part two).
 */
module Four {
  import opened Wrappers
  import opened IntMath
  import opened Text

  /** `[u8; 6]`. */
  type Password = s: seq<int> | |s| == 6 witness [0, 0, 0, 0, 0, 0]

  const ParseError: string := "error parsing number"

  /** Rust's `as u8` on an integer: keeps the low eight bits. */
  function U8(v: int): (r: int)
    ensures 0 <= r < 256
    ensures 0 <= v < 256 ==> r == v
  {
    v % 256
  }

  /** `itoa`: the six digits, most significant first, each computed with
      Rust's truncating `%` and `/` and cast to `u8`. */
  function Itoa(i: int): (pwd: Password)
    requires I32Min <= i <= I32Max
  {
    [U8(Quot(Rem(i, 1000000), 100000)),
     U8(Quot(Rem(i, 100000), 10000)),
     U8(Quot(Rem(i, 10000), 1000)),
     U8(Quot(Rem(i, 1000), 100)),
     U8(Quot(Rem(i, 100), 10)),
     U8(Rem(i, 10))]
  }

  /** The number a sequence of six digits stands for. */
  function DigitsNumber(pwd: Password): int
  {
    100000 * pwd[0] + 10000 * pwd[1] + 1000 * pwd[2] + 100 * pwd[3] + 10 * pwd[4] + pwd[5]
  }

  /** For a non-negative number, `itoa` gives the six decimal digits of the
      number modulo 1000000. */
  lemma ItoaDigits(i: int)
    requires 0 <= i <= I32Max
    ensures forall k :: 0 <= k < 6 ==> 0 <= Itoa(i)[k] <= 9
    ensures DigitsNumber(Itoa(i)) == i % 1000000
  {
    var pwd := Itoa(i);
    DigitStep(i, 100000, Quot(Rem(i, 1000000), 100000));
    DigitStep(i, 10000, Quot(Rem(i, 100000), 10000));
    DigitStep(i, 1000, Quot(Rem(i, 10000), 1000));
    DigitStep(i, 100, Quot(Rem(i, 1000), 100));
    DigitStep(i, 10, Quot(Rem(i, 100), 10));
    QuotOfNatural(i, 10);
    QuotOfNatural(i, 1000000);
    assert pwd[0] == Quot(Rem(i, 1000000), 100000);
    assert pwd[1] == Quot(Rem(i, 100000), 10000);
    assert pwd[2] == Quot(Rem(i, 10000), 1000);
    assert pwd[3] == Quot(Rem(i, 1000), 100);
    assert pwd[4] == Quot(Rem(i, 100), 10);
    assert pwd[5] == Rem(i, 10);
  }

  /** One digit of `itoa`: the remainder by `10 * m` splits into the digit
      at `m` and the remainder by `m`. */
  lemma DigitStep(i: nat, m: int, d: int)
    requires m > 0 && d == Quot(Rem(i, 10 * m), m)
    ensures 0 <= d <= 9 && Rem(i, 10 * m) == m * d + Rem(i, m)
  {
    QuotOfNatural(i, 10 * m);
    QuotOfNatural(i % (10 * m), m);
    QuotOfNatural(i, m);
    ModSplit(i, m, i % (10 * m), d);
  }

  /** The same on Dafny's own division of naturals. */
  lemma ModSplit(i: nat, m: int, n: int, d: int)
    requires m > 0 && n == i % (10 * m) && d == n / m
    ensures 0 <= d <= 9 && n == m * d + i % m
  {
    var big := 10 * m;
    var q := i / big;
    NatDivMod(i, big);
    NatDivMod(n, m);
    var r := n % m;
    assert i == big * q + n;
    assert n == m * d + r;
    assert big * q == m * (10 * q);
    assert m * (10 * q) + m * d == m * (10 * q + d);
    DivModUnique(i, m, 10 * q + d, r);
    if d >= 10 {
      MulMonotone(10, d, m);
    }
  }

  // ---------------------------------------------------------------------
  // The rules, as properties of the digit sequence

  /** No digit is smaller than the one before it. */
  predicate NonDecreasing(pwd: Password)
  {
    forall k :: 1 <= k < 6 ==> pwd[k - 1] <= pwd[k]
  }

  /** Some two adjacent digits are equal. */
  predicate HasPair(pwd: Password)
  {
    exists k :: 1 <= k < 6 && pwd[k - 1] == pwd[k]
  }

  /** Positions `k` and `k + 1` form a maximal run of two equal digits. */
  predicate ExactPairAt(pwd: Password, k: int)
  {
    0 <= k && k + 1 < 6 && pwd[k] == pwd[k + 1]
    && (k == 0 || pwd[k - 1] != pwd[k])
    && (k + 2 == 6 || pwd[k + 2] != pwd[k])
  }

  /** Some maximal run of equal digits has length exactly two. */
  predicate HasExactPair(pwd: Password)
  {
    exists k :: 0 <= k < 5 && ExactPairAt(pwd, k)
  }

  /** Length of the run of equal digits that ends at position `i`. */
  function RunLen(pwd: Password, i: int): (n: nat)
    requires 0 <= i < 6
    ensures 1 <= n <= i + 1
    ensures n >= 2 <==> i >= 1 && pwd[i - 1] == pwd[i]
  {
    if i == 0 || pwd[i - 1] != pwd[i] then 1 else 1 + RunLen(pwd, i - 1)
  }

  // ---------------------------------------------------------------------
  // The loops of the source

  /** `is_incr`. */
  method IsIncr(pwd: Password) returns (r: bool)
    ensures r <==> NonDecreasing(pwd)
  {
    for i := 1 to 6
      invariant forall k :: 1 <= k < i ==> pwd[k - 1] <= pwd[k]
    {
      if pwd[i - 1] > pwd[i] {
        return false;
      }
    }
    return true;
  }

  /** `has_repeat`: follows the current run and its length, and notes when
      a run reaches length two. */
  method HasRepeat(pwd: Password) returns (r: bool)
    ensures r <==> HasPair(pwd)
  {
    var curSeq := pwd[0];
    var lenSeq := 1;
    var ok := false;
    for i := 1 to 6
      invariant curSeq == pwd[i - 1] && lenSeq == RunLen(pwd, i - 1)
      invariant ok <==> exists k :: 1 <= k < i && pwd[k - 1] == pwd[k]
    {
      if pwd[i] == curSeq {
        lenSeq := lenSeq + 1;
      } else {
        curSeq := pwd[i];
        lenSeq := 1;
      }
      if lenSeq == 2 {
        ok := true;
      }
    }
    r := ok;
  }

  /** `has_repeat_wo_trips`: a run of two sets the flag, a third equal
      digit clears it, and a run of two that has just ended answers
      yes at once. */
  method HasRepeatWoTrips(pwd: Password) returns (r: bool)
    ensures r <==> HasExactPair(pwd)
  {
    var curSeq := pwd[0];
    var lenSeq := 1;
    var ok := false;
    for i := 1 to 6
      invariant curSeq == pwd[i - 1] && lenSeq == RunLen(pwd, i - 1)
      invariant ok <==> lenSeq == 2
      invariant forall k :: 0 <= k && k + 2 < i ==> !ExactPairAt(pwd, k)
    {
      if pwd[i] == curSeq {
        lenSeq := lenSeq + 1;
      } else {
        curSeq := pwd[i];
        lenSeq := 1;
      }
      if lenSeq == 2 {
        ok := true;
      } else if lenSeq == 3 {
        ok := false;
      }
      if ok && lenSeq == 1 {
        assert ExactPairAt(pwd, i - 2);
        return ok;
      }
    }
    if ok {
      assert ExactPairAt(pwd, 4);
    } else {
      assert !ExactPairAt(pwd, 4);
    }
    r := ok;
  }

  /** `is_valid_a`. */
  method IsValidA(pwd: Password) returns (r: bool)
    ensures r <==> NonDecreasing(pwd) && HasPair(pwd)
  {
    var incr := IsIncr(pwd);
    if !incr { return false; }
    r := HasRepeat(pwd);
  }

  /** `is_valid_b`. */
  method IsValidB(pwd: Password) returns (r: bool)
    ensures r <==> NonDecreasing(pwd) && HasExactPair(pwd)
  {
    var incr := IsIncr(pwd);
    if !incr { return false; }
    r := HasRepeatWoTrips(pwd);
  }

  /** The examples of the source's tests. */
  lemma RuleExamples()
    ensures HasExactPair([1, 1, 2, 2, 3, 3])
    ensures !HasExactPair([1, 2, 3, 4, 4, 4])
    ensures HasExactPair([1, 1, 1, 1, 2, 2])
    ensures !HasExactPair([1, 1, 1, 1, 1, 1])
    ensures HasExactPair([1, 1, 2, 2, 2, 2])
    ensures NonDecreasing([1, 1, 1, 1, 1, 1]) && HasPair([1, 1, 1, 1, 1, 1])
    ensures !NonDecreasing([2, 2, 3, 4, 5, 0])
    ensures !HasPair([1, 2, 3, 7, 8, 9])
  {
    assert ExactPairAt([1, 1, 2, 2, 3, 3], 0);
    assert ExactPairAt([1, 1, 1, 1, 2, 2], 4);
    assert ExactPairAt([1, 1, 2, 2, 2, 2], 0);
    assert [1, 1, 1, 1, 1, 1][0] == [1, 1, 1, 1, 1, 1][1];
    assert [2, 2, 3, 4, 5, 0][4] > [2, 2, 3, 4, 5, 0][5];
  }

  /** An exact pair is a pair. */
  lemma ExactPairIsPair(pwd: Password)
    requires HasExactPair(pwd)
    ensures HasPair(pwd)
  {
    var k :| 0 <= k < 5 && ExactPairAt(pwd, k);
    assert pwd[k + 1 - 1] == pwd[k + 1];
  }

  // ---------------------------------------------------------------------
  // Input and counting

  /** Parses every token as an `i32`; one bad token is fatal. */
  function ParseAll(tokens: seq<string>): (r: Result<seq<int>>)
    ensures r.Ok? <==> forall k :: 0 <= k < |tokens| ==> ParseI32(tokens[k]).Some?
    ensures r.Ok? ==> |r.value| == |tokens|
    ensures r.Ok? ==> forall k :: 0 <= k < |tokens| ==> r.value[k] == ParseI32(tokens[k]).value
    ensures !r.Ok? ==> r == Err(ParseError)
  {
    if tokens == [] then Ok([])
    else
      match ParseI32(tokens[0])
      case None => Err(ParseError)
      case Some(n) =>
        var rest :- ParseAll(tokens[1..]);
        Ok([n] + rest)
  }

  /** A half-open range `lo..hi`. */
  datatype Range = Range(lo: int, hi: int)

  /** `read_range`: "lo-hi" becomes `lo..hi+1`.  Every token of the split
      is parsed, and fewer than two tokens is an indexing failure. */
  function ReadRange(line: string): (r: Result<Range>)
    ensures r.Ok? ==> I32Min <= r.value.lo <= I32Max && I32Min + 1 <= r.value.hi <= I32Max + 1
    ensures r.Ok? <==> ParseAll(Split(Trim(line), "-")).Ok? && |Split(Trim(line), "-")| >= 2
    ensures r.Ok? ==>
      && r.value.lo == ParseI32(Split(Trim(line), "-")[0]).value
      && r.value.hi == ParseI32(Split(Trim(line), "-")[1]).value + 1
  {
    var lh :- ParseAll(Split(Trim(line), "-"));
    if |lh| < 2 then Err(IndexOutOfBounds) else Ok(Range(lh[0], lh[1] + 1))
  }

  /** Does `n` pass the rule of part one (`partB` false) or part two
      (`partB` true)? */
  predicate Valid(n: int, partB: bool)
    requires I32Min <= n <= I32Max
  {
    NonDecreasing(Itoa(n)) && (if partB then HasExactPair(Itoa(n)) else HasPair(Itoa(n)))
  }

  /** The numbers of the range that pass the rule. */
  ghost function ValidIn(rng: Range, partB: bool): set<int>
    requires I32Min <= rng.lo && rng.hi <= I32Max + 1
  {
    set n | rng.lo <= n < rng.hi && Valid(n, partB)
  }

  lemma ValidInStep(lo: int, n: int, partB: bool)
    requires I32Min <= lo <= n <= I32Max
    ensures n !in ValidIn(Range(lo, n), partB)
    ensures ValidIn(Range(lo, n + 1), partB) == ValidIn(Range(lo, n), partB) + (if Valid(n, partB) then {n} else {})
  {
  }

  /** The filter-and-count of `four_a` (`partB` false) and `four_b`
      (`partB` true) over a range. */
  method CountValid(rng: Range, partB: bool) returns (count: nat)
    requires I32Min <= rng.lo && rng.hi <= I32Max + 1
    ensures count == |ValidIn(rng, partB)|
  {
    count := 0;
    if rng.hi <= rng.lo {
      assert ValidIn(rng, partB) == {};
      return;
    }
    var n := rng.lo;
    while n < rng.hi
      invariant rng.lo <= n <= rng.hi
      invariant count == |ValidIn(Range(rng.lo, n), partB)|
    {
      var valid: bool;
      if partB {
        valid := IsValidB(Itoa(n));
      } else {
        valid := IsValidA(Itoa(n));
      }
      ValidInStep(rng.lo, n, partB);
      if valid {
        count := count + 1;
      }
      n := n + 1;
    }
  }

  /** `four_a`: how many numbers of the inclusive interval pass part one. */
  method FourA(line: string) returns (r: Result<nat>)
    ensures ReadRange(line).Ok? ==> r == Ok(|ValidIn(ReadRange(line).value, false)|)
    ensures !ReadRange(line).Ok? ==> r == ReadRange(line).PropagateFailure()
  {
    var rng := ReadRange(line);
    if !rng.Ok? { return rng.PropagateFailure(); }
    var count := CountValid(rng.value, false);
    r := Ok(count);
  }

  /** `four_b`: how many numbers of the inclusive interval pass part two. */
  method FourB(line: string) returns (r: Result<nat>)
    ensures ReadRange(line).Ok? ==> r == Ok(|ValidIn(ReadRange(line).value, true)|)
    ensures !ReadRange(line).Ok? ==> r == ReadRange(line).PropagateFailure()
  {
    var rng := ReadRange(line);
    if !rng.Ok? { return rng.PropagateFailure(); }
    var count := CountValid(rng.value, true);
    r := Ok(count);
  }
}
