/**
 * Day 2 (src/two.rs): the comma-separated program parser, the patched
 * run of part one and the brute-force noun/verb search of part two, on
 * top of the Intcode machine.
 */
module Two {
  import opened Wrappers
  import opened Text
  import opened Intcode

  const ParseError: string := "error parsing number"
  const NoMatch: string := "no input yields value 19690720"
  const Needle: int := 19690720

  /** Parses every token as a `usize`; one bad token is fatal. */
  function ParseTokens(tokens: seq<string>): (r: Result<seq<int>>)
    ensures r.Ok? <==> forall k :: 0 <= k < |tokens| ==> ParseUsize(tokens[k]).Some?
    ensures r.Ok? ==> |r.value| == |tokens|
    ensures r.Ok? ==> forall k :: 0 <= k < |tokens| ==> r.value[k] == ParseUsize(tokens[k]).value
    ensures !r.Ok? ==> r == Err(ParseError)
  {
    if tokens == [] then Ok([])
    else
      match ParseUsize(tokens[0])
      case None => Err(ParseError)
      case Some(n) =>
        var rest :- ParseTokens(tokens[1..]);
        Ok([n] + rest)
  }

  /** `read_program`: the first line, trimmed, split on "," and parsed. */
  function ReadProgram(line: string): Result<seq<int>>
  {
    ParseTokens(Split(Trim(line), ","))
  }

  /** The decimal rendering of each cell. */
  function Shown(p: seq<nat>): (r: seq<string>)
    ensures |r| == |p| && forall k :: 0 <= k < |p| ==> r[k] == ShowNat(p[k])
  {
    seq(|p|, k requires 0 <= k < |p| => ShowNat(p[k]))
  }

  /** A joined sequence of non-empty pieces starts with the first piece's
      first character and ends with the last piece's last character. */
  lemma {:induction false} JoinEnds(parts: seq<string>, sep: string)
    requires |parts| >= 1 && forall k :: 0 <= k < |parts| ==> parts[k] != []
    ensures var j := Join(parts, sep);
      |j| > 0 && j[0] == parts[0][0] && j[|j| - 1] == parts[|parts| - 1][|parts[|parts| - 1]| - 1]
    decreases |parts|
  {
    if |parts| > 1 {
      JoinEnds(parts[1..], sep);
    }
  }

  lemma ShowNatNoComma(n: nat)
    ensures ',' !in ShowNat(n)
  {
    var d := ShowNat(n);
    forall i | 0 <= i < |d| ensures d[i] != ',' {
      assert IsDigit(d[i]);
    }
  }

  /** `read_program` reads back a program written as comma-separated
      decimal numbers. */
  lemma ReadShownProgram(p: seq<nat>)
    requires |p| >= 1 && forall k :: 0 <= k < |p| ==> p[k] < 0x1_0000_0000_0000_0000
    ensures ReadProgram(Join(Shown(p), ",")) == Ok(p)
  {
    var parts := Shown(p);
    forall k | 0 <= k < |parts| ensures ',' !in parts[k] && parts[k] != [] {
      ShowNatNoComma(p[k]);
    }
    JoinEnds(parts, ",");
    var s := Join(parts, ",");
    var last := parts[|parts| - 1];
    assert IsDigit(parts[0][0]) && IsDigit(last[|last| - 1]);
    TrimByUnchanged(s, IsWhitespace);
    assert Trim(s) == s;
    SplitJoin(parts, ',');
    assert Split(s, ",") == parts;
    ParseShown(p);
  }

  /** Each rendered cell parses back to the cell. */
  lemma ParseShown(p: seq<nat>)
    requires forall k :: 0 <= k < |p| ==> p[k] < 0x1_0000_0000_0000_0000
    ensures ParseTokens(Shown(p)) == Ok(p)
  {
    var parts := Shown(p);
    forall k | 0 <= k < |parts| ensures ParseUsize(parts[k]) == Some(p[k]) {
      ParseShowUsize(p[k]);
    }
    var r := ParseTokens(parts);
    assert r.Ok? && |r.value| == |p|;
    assert forall k :: 0 <= k < |p| ==> r.value[k] == p[k];
    assert r.value == p;
  }

  /** The program with cell 1 set to `noun` and cell 2 to `verb`. */
  function Patch(p: seq<int>, noun: int, verb: int): (q: seq<int>)
    requires |p| >= 3
    ensures |q| == |p| && q[1] == noun && q[2] == verb
    ensures forall k :: 0 <= k < |p| && k != 1 && k != 2 ==> q[k] == p[k]
  {
    p[1 := noun][2 := verb]
  }

  /** `two_a`: the program patched with 12 and 2, run to its halt. */
  method TwoA(line: string, fuel: nat) returns (r: Result<int>)
    ensures ReadProgram(line).Err? ==> r == Err(ParseError)
    ensures ReadProgram(line).Ok? && |ReadProgram(line).value| < 3 ==> r == Err(IndexOutOfBounds)
    ensures ReadProgram(line).Ok? && |ReadProgram(line).value| >= 3 ==>
      r == RunValue(Patch(ReadProgram(line).value, 12, 2), fuel)
  {
    var parsed := ReadProgram(line);
    if !parsed.Ok? {
      return Err(ParseError);
    }
    var p := parsed.value;
    if |p| < 3 {
      return Err(IndexOutOfBounds);
    }
    p := p[1 := 12];
    p := p[2 := 2];
    var mach := new Machine(p);
    r := mach.RunProgram(fuel);
  }

  /** Does the pair `(n, m)` come before `(noun, verb)` in the search order,
      nouns outermost? */
  predicate Before(n: int, m: int, noun: int, verb: int)
  {
    n < noun || (n == noun && m < verb)
  }

  /** A pair that was tried: its run halted, with a value other than the
      needle. */
  predicate Missed(p: seq<int>, fuel: nat, n: int, m: int)
    requires |p| >= 3
  {
    RunValue(Patch(p, n, m), fuel).Ok? && RunValue(Patch(p, n, m), fuel).value != Needle
  }

  /** The nested loops of `two_b` from the pair `(noun, verb)` on: the first
      pair whose run yields the needle, as `100*noun + verb`; a failing run
      is fatal, and so is running out of pairs. */
  function Search(p: seq<int>, fuel: nat, noun: nat, verb: nat): Result<int>
    requires |p| >= 3 && noun <= 100 && verb <= 100
    decreases 100 - noun, 100 - verb
  {
    if noun == 100 then Err(NoMatch)
    else if verb == 100 then Search(p, fuel, noun + 1, 0)
    else
      match RunValue(Patch(p, noun, verb), fuel)
      case Ok(out) => if out == Needle then Ok(100 * noun + verb) else Search(p, fuel, noun, verb + 1)
      case Err(e) => Err(e)
      case OutOfFuel => OutOfFuel
  }

  /** A successful search names a pair below 100 whose run yields the
      needle, so the answer is below 10000, and every pair tried before it
      halted without the needle. */
  lemma {:induction false} SearchFound(p: seq<int>, fuel: nat, noun: nat, verb: nat) returns (n: int, m: int)
    requires |p| >= 3 && noun <= 100 && verb <= 100
    requires Search(p, fuel, noun, verb).Ok?
    ensures Found(p, fuel, noun, verb, n, m)
    decreases 100 - noun, 100 - verb
  {
    if verb == 100 {
      n, m := SearchFound(p, fuel, noun + 1, 0);
      FoundNextNoun(p, fuel, noun, n, m);
    } else {
      var out := RunValue(Patch(p, noun, verb), fuel);
      if out.value == Needle {
        n, m := noun, verb;
      } else {
        n, m := SearchFound(p, fuel, noun, verb + 1);
        FoundNextVerb(p, fuel, noun, verb, n, m);
      }
    }
  }

  /** What a successful search from `(noun, verb)` promises about the pair
      `(n, m)` it stops at: a pair below 100 whose run yields the needle,
      giving an answer below 10000, and every pair tried before it halted
      without the needle. */
  ghost predicate Found(p: seq<int>, fuel: nat, noun: nat, verb: nat, n: int, m: int)
    requires |p| >= 3 && noun <= 100 && verb <= 100
  {
    0 <= n < 100 && 0 <= m < 100 && !Before(n, m, noun, verb)
    && Search(p, fuel, noun, verb) == Ok(100 * n + m) && 100 * n + m < 10000
    && RunValue(Patch(p, n, m), fuel) == Ok(Needle)
    && forall i, j :: 0 <= i < 100 && 0 <= j < 100 && !Before(i, j, noun, verb) && Before(i, j, n, m) ==> Missed(p, fuel, i, j)
  }

  lemma FoundNextNoun(p: seq<int>, fuel: nat, noun: nat, n: int, m: int)
    requires |p| >= 3 && noun < 100
    requires Found(p, fuel, noun + 1, 0, n, m)
    ensures Found(p, fuel, noun, 100, n, m)
  {
  }

  lemma FoundNextVerb(p: seq<int>, fuel: nat, noun: nat, verb: nat, n: int, m: int)
    requires |p| >= 3 && noun < 100 && verb < 100
    requires Missed(p, fuel, noun, verb)
    requires Found(p, fuel, noun, verb + 1, n, m)
    ensures Found(p, fuel, noun, verb, n, m)
  {
  }

  /** When every pair from `(noun, verb)` on halts without the needle, the
      search ends in the "no input" failure. */
  lemma {:induction false} SearchExhausted(p: seq<int>, fuel: nat, noun: nat, verb: nat)
    requires |p| >= 3 && noun <= 100 && verb <= 100
    requires forall i, j :: 0 <= i < 100 && 0 <= j < 100 && !Before(i, j, noun, verb) ==> Missed(p, fuel, i, j)
    ensures Search(p, fuel, noun, verb) == Err(NoMatch)
    decreases 100 - noun, 100 - verb
  {
    if noun < 100 {
      if verb == 100 {
        SearchExhausted(p, fuel, noun + 1, 0);
      } else {
        assert Missed(p, fuel, noun, verb);
        SearchExhausted(p, fuel, noun, verb + 1);
      }
    }
  }

  /** `two_b`: each pair runs on a fresh machine over a patched copy of the
      program, so the program itself is never changed. */
  method TwoB(line: string, fuel: nat) returns (r: Result<int>)
    ensures ReadProgram(line).Err? ==> r == Err(ParseError)
    ensures ReadProgram(line).Ok? && |ReadProgram(line).value| < 3 ==> r == Err(IndexOutOfBounds)
    ensures ReadProgram(line).Ok? && |ReadProgram(line).value| >= 3 ==>
      r == Search(ReadProgram(line).value, fuel, 0, 0)
  {
    var parsed := ReadProgram(line);
    if !parsed.Ok? {
      return Err(ParseError);
    }
    var p := parsed.value;
    if |p| < 3 {
      return Err(IndexOutOfBounds);
    }
    var noun := 0;
    while noun < 100
      invariant 0 <= noun <= 100
      invariant Search(p, fuel, noun, 0) == Search(p, fuel, 0, 0)
    {
      var verb := 0;
      while verb < 100
        invariant 0 <= verb <= 100
        invariant Search(p, fuel, noun, verb) == Search(p, fuel, 0, 0)
      {
        var q := p;
        q := q[1 := noun];
        q := q[2 := verb];
        var mach := new Machine(q);
        var out := mach.RunProgram(fuel);
        if !out.Ok? {
          return out;
        }
        if out.value == Needle {
          return Ok(100 * noun + verb);
        }
        verb := verb + 1;
      }
      noun := noun + 1;
    }
    r := Err(NoMatch);
  }
}
