/**
 * Day 14 (src/fourteen.rs): reaction rules "a A, b B => n N", an ordering
 * of the materials in tiers so that every material comes after all the
 * materials that consume it, and the accumulation of required amounts
 * from FUEL down to ORE.
 */
module Fourteen {
  import opened Wrappers
  import opened Text
  import opened IntMath
  import opened Maps

  const Fuel: string := "FUEL"
  const Ore: string := "ORE"
  const AmountError: string := "could not parse amount"

  /** `Rule`: the amount a reaction produces and the amount of each
      ingredient it consumes. */
  datatype Rule = Rule(amt: nat, lhs: map<string, nat>)

  type Rules = map<string, Rule>

  // ---------------------------------------------------------------------
  // Parsing

  /** `parse_amtmat`: "N NAME" (trimmed, split on one space) becomes
      `(NAME, N)`.  A missing second word is an indexing failure, a bad
      amount a parse failure. */
  function ParseAmtMat(s: string): (r: Result<(string, nat)>)
    ensures !r.Ok? ==> r == Err(IndexOutOfBounds) || r == Err(AmountError)
  {
    var pair := Split(Trim(s), " ");
    if |pair| < 2 then Err(IndexOutOfBounds)
    else
      match ParseUsize(pair[0])
      case None => Err(AmountError)
      case Some(n) => Ok((pair[1], n))
  }

  /** A name made only of non-space characters. */
  predicate IsName(name: string)
  {
    name != [] && forall i :: 0 <= i < |name| ==> !IsWhitespace(name[i])
  }

  /** `parse_amtmat` reads back an amount and a name written as "N NAME". */
  lemma ParseAmtMatShown(n: nat, name: string)
    requires n < 0x1_0000_0000_0000_0000 && IsName(name)
    ensures ParseAmtMat(ShowNat(n) + " " + name) == Ok((name, n))
  {
    var d := ShowNat(n);
    var s := d + " " + name;
    assert Join([d, name], " ") == s;
    forall k | 0 <= k < |[d, name]| ensures ' ' !in [d, name][k] {
      if k == 0 {
        forall i | 0 <= i < |d| ensures d[i] != ' ' { assert IsDigit(d[i]); }
      } else {
        forall i | 0 <= i < |name| ensures name[i] != ' ' { assert !IsWhitespace(name[i]); }
      }
    }
    assert s[0] == d[0] && IsDigit(d[0]);
    assert s[|s| - 1] == name[|name| - 1];
    TrimByUnchanged(s, IsWhitespace);
    SplitJoin([d, name], ' ');
    ParseShowUsize(n);
  }

  /** The ingredient map a left-hand side denotes. */
  function Lhs(s: string): Result<map<string, nat>>
  {
    var pairs :- ParseEach(Split(Trim(s), ", "), ParseAmtMat);
    Ok(InsertAll(pairs))
  }

  /** `parse_lhs`: trims, splits on ", " and inserts each parsed pair. */
  method ParseLhs(s: string) returns (r: Result<map<string, nat>>)
    ensures r == Lhs(s)
  {
    var items := Split(Trim(s), ", ");
    var lhs: map<string, nat> := map[];
    ghost var pairs: seq<(string, nat)> := [];
    for k := 0 to |items|
      invariant |pairs| == k && ParseEach(items[..k], ParseAmtMat) == Ok(pairs)
      invariant lhs == InsertAll(pairs)
    {
      var p := ParseAmtMat(items[k]);
      if !p.Ok? {
        ParseEachFirstFailure(items, ParseAmtMat, k, |items|);
        assert items[..|items|] == items;
        return p.PropagateFailure();
      }
      ParseEachStep(items, ParseAmtMat, k, pairs);
      lhs := lhs[p.value.0 := p.value.1];
      pairs := pairs + [p.value];
      assert pairs[..|pairs| - 1] == pairs[..k];
    }
    assert items[..|items|] == items;
    r := Ok(lhs);
  }

  /** One line "LHS => N NAME" as the pair `(NAME, rule)`.  The right-hand
      side is parsed before the left; a line without "=>" is an indexing
      failure. */
  function RuleOfLine(line: string): Result<(string, Rule)>
  {
    var rule := Split(Trim(line), "=>");
    if |rule| < 2 then Err(IndexOutOfBounds)
    else
      var rhs :- ParseAmtMat(rule[1]);
      var lhs :- Lhs(rule[0]);
      Ok((rhs.0, Rule(rhs.1, lhs)))
  }

  /** The rules the lines denote; a later rule for the same material
      replaces an earlier one. */
  function RulesOf(lines: seq<string>): Result<Rules>
  {
    var pairs :- ParseEach(lines, RuleOfLine);
    Ok(InsertAll(pairs))
  }

  /** `read_rules`. */
  method ReadRules(lines: seq<string>) returns (r: Result<Rules>)
    ensures r == RulesOf(lines)
  {
    var rules: Rules := map[];
    ghost var pairs: seq<(string, Rule)> := [];
    for k := 0 to |lines|
      invariant |pairs| == k && ParseEach(lines[..k], RuleOfLine) == Ok(pairs)
      invariant rules == InsertAll(pairs)
    {
      var rule := Split(Trim(lines[k]), "=>");
      if |rule| < 2 {
        ParseEachFirstFailure(lines, RuleOfLine, k, |lines|);
        assert lines[..|lines|] == lines;
        return Err(IndexOutOfBounds);
      }
      var rhs := ParseAmtMat(rule[1]);
      if !rhs.Ok? {
        ParseEachFirstFailure(lines, RuleOfLine, k, |lines|);
        assert lines[..|lines|] == lines;
        return rhs.PropagateFailure();
      }
      var lhs := ParseLhs(rule[0]);
      if !lhs.Ok? {
        ParseEachFirstFailure(lines, RuleOfLine, k, |lines|);
        assert lines[..|lines|] == lines;
        return lhs.PropagateFailure();
      }
      var entry := (rhs.value.0, Rule(rhs.value.1, lhs.value));
      assert RuleOfLine(lines[k]) == Ok(entry);
      ParseEachStep(lines, RuleOfLine, k, pairs);
      rules := rules[entry.0 := entry.1];
      pairs := pairs + [entry];
      assert pairs[..|pairs| - 1] == pairs[..k];
    }
    assert lines[..|lines|] == lines;
    r := Ok(rules);
  }

  lemma NonEmptyNames(s: set<string>)
    requires s != {}
    ensures exists a :: a in s
  {
    if forall a :: a !in s { assert false; }
  }

  // ---------------------------------------------------------------------
  // How often a rule runs

  /** `rule_fires`: how many times a reaction producing `produced` per run
      must run for `req`, i.e. `req / produced` rounded up.  A rule that
      produces nothing makes the division fail. */
  function RuleFires(req: nat, produced: nat): (r: Result<nat>)
    ensures r.Ok? <==> produced > 0
    ensures !r.Ok? ==> r == Err(DivideByZero)
    ensures r.Ok? ==> r.value * produced >= req
    ensures r.Ok? && r.value > 0 ==> (r.value - 1) * produced < req
  {
    if produced == 0 then Err(DivideByZero)
    else
      var q := req / produced;
      assert req == produced * q + req % produced;
      if req % produced > 0 then Ok(q + 1) else Ok(q)
  }

  /** The result is the least number of runs that covers the requirement. */
  lemma RuleFiresLeast(req: nat, produced: nat, m: nat)
    requires produced > 0 && m * produced >= req
    ensures RuleFires(req, produced).value <= m
  {
    var n := RuleFires(req, produced).value;
    if m < n {
      MulMonotone(m, n - 1, produced);
    }
  }

  // ---------------------------------------------------------------------
  // Tiers (`ord`)

  /** Every material of the tier other than ORE has a rule. */
  predicate Expandable(rules: Rules, tier: set<string>)
  {
    forall m :: m in tier && m != Ore ==> m in rules
  }

  /** What the members of a tier other than ORE consume. */
  ghost function Reqs(rules: Rules, tier: set<string>): set<string>
    requires Expandable(rules, tier)
  {
    set m, r | m in tier && m != Ore && r in rules[m].lhs :: r
  }

  /** Every tier with the materials of `gone` removed. */
  function RemoveAll(tiers: seq<set<string>>, gone: set<string>): (r: seq<set<string>>)
    ensures |r| == |tiers| && forall i :: 0 <= i < |r| ==> r[i] == tiers[i] - gone
  {
    seq(|tiers|, i requires 0 <= i < |tiers| => tiers[i] - gone)
  }

  /** The loop of `ord` from the tiers `res`, whose last one is the tier to
      expand next.  As written (`fixed` false) the loop stops only when the
      next tier is exactly {ORE}; with `fixed` it also stops when there is
      nothing left to expand, dropping ORE from the tiers. */
  ghost function OrdFrom(rules: Rules, res: seq<set<string>>, fuel: nat, fixed: bool): Result<seq<set<string>>>
    requires |res| >= 1
    decreases fuel
  {
    var cur := res[|res| - 1];
    if !Expandable(rules, cur) then Err(UnwrapNone)
    else
      var next := Reqs(rules, cur);
      if next == {Ore} || (fixed && next == {}) then Ok(RemoveAll(res, {Ore}))
      else if fuel == 0 then OutOfFuel
      else OrdFrom(rules, RemoveAll(res, next) + [next], fuel - 1, fixed)
  }

  /** `ord` as written: tier 0 is FUEL's ingredients. */
  ghost function OrdAsWritten(rules: Rules, fuel: nat): Result<seq<set<string>>>
  {
    if Fuel !in rules then Err(UnwrapNone) else OrdFrom(rules, [rules[Fuel].lhs.Keys], fuel, false)
  }

  /** `ord` with the stop condition corrected. */
  ghost function OrdSpec(rules: Rules, fuel: nat): Result<seq<set<string>>>
  {
    if Fuel !in rules then Err(UnwrapNone) else OrdFrom(rules, [rules[Fuel].lhs.Keys], fuel, true)
  }

  /** Is `r` in some tier after tier `i`? */
  ghost predicate InLater(tiers: seq<set<string>>, i: int, r: string)
  {
    exists j :: 0 <= j < |tiers| && i < j && r in tiers[j]
  }

  /** The tiers are pairwise disjoint. */
  ghost predicate Disjoint(tiers: seq<set<string>>)
  {
    forall i, j :: 0 <= i < j < |tiers| ==> tiers[i] !! tiers[j]
  }

  /** The first `n` tiers can be expanded, and each ingredient of their
      members, ORE aside, lies in a later tier. */
  ghost predicate Expanded(rules: Rules, tiers: seq<set<string>>, n: int)
  {
    forall i :: 0 <= i < n && i < |tiers| ==>
      Expandable(rules, tiers[i])
      && forall m, r :: m in tiers[i] && m != Ore && m in rules && r in rules[m].lhs && r != Ore ==> InLater(tiers, i, r)
  }

  /** Every element of `s` other than ORE lies in some tier. */
  ghost predicate Covers(tiers: seq<set<string>>, s: set<string>)
  {
    forall r :: r in s && r != Ore ==> InLater(tiers, -1, r)
  }

  /** What the tiers of a finished `ord` promise: ORE is in none of them,
      no material is in two, every ingredient of FUEL is in one, and every
      ingredient of a material lies in a later tier than the material, so
      that a material is only expanded after everything that consumes it. */
  ghost predicate Ordered(rules: Rules, tiers: seq<set<string>>)
  {
    Fuel in rules
    && (forall i :: 0 <= i < |tiers| ==> Ore !in tiers[i])
    && Disjoint(tiers)
    && Covers(tiers, rules[Fuel].lhs.Keys)
    && Expanded(rules, tiers, |tiers|)
  }

  lemma {:induction false} OrdFromOrdered(rules: Rules, res: seq<set<string>>, fuel: nat, fixed: bool)
    requires |res| >= 1 && Fuel in rules
    requires Disjoint(res) && Covers(res, rules[Fuel].lhs.Keys) && Expanded(rules, res, |res| - 1)
    requires OrdFrom(rules, res, fuel, fixed).Ok?
    ensures Ordered(rules, OrdFrom(rules, res, fuel, fixed).value)
    decreases fuel
  {
    var last := |res| - 1;
    var cur := res[last];
    var next := Reqs(rules, cur);
    assert forall m, r :: m in cur && m != Ore && r in rules[m].lhs ==> r in next;
    if next == {Ore} || (fixed && next == {}) {
      OrdStopOrdered(rules, res, next);
    } else {
      OrdStepReady(rules, res, next);
      OrdFromOrdered(rules, RemoveAll(res, next) + [next], fuel - 1, fixed);
    }
  }

  /** Where `ord` stops, dropping ORE leaves ordered tiers. */
  lemma OrdStopOrdered(rules: Rules, res: seq<set<string>>, next: set<string>)
    requires |res| >= 1 && Fuel in rules
    requires Disjoint(res) && Covers(res, rules[Fuel].lhs.Keys) && Expanded(rules, res, |res| - 1)
    requires next <= {Ore} && Expandable(rules, res[|res| - 1])
    requires forall m, r :: m in res[|res| - 1] && m != Ore && r in rules[m].lhs ==> r in next
    ensures Ordered(rules, RemoveAll(res, {Ore}))
  {
    var last := |res| - 1;
    var t := RemoveAll(res, {Ore});
    forall i, j | 0 <= i < j < |t| ensures t[i] !! t[j] {
      assert res[i] !! res[j];
    }
    forall r | r in rules[Fuel].lhs.Keys && r != Ore ensures InLater(t, -1, r) {
      var j :| 0 <= j < |res| && -1 < j && r in res[j];
      assert r in t[j];
    }
    forall i | 0 <= i < |t|
      ensures forall m, r :: m in t[i] && m != Ore && m in rules && r in rules[m].lhs && r != Ore ==> InLater(t, i, r)
    {
      forall m, r | m in t[i] && m != Ore && m in rules && r in rules[m].lhs && r != Ore ensures InLater(t, i, r) {
        assert m in res[i];
        assert i == last ==> r in next;
        if i < last {
          assert InLater(res, i, r);
          var j :| 0 <= j < |res| && i < j && r in res[j];
          assert r in t[j];
        }
      }
    }
  }

  /** One more tier keeps the tiers disjoint, covering FUEL's
      ingredients, and expanded up to the new last one. */
  lemma OrdStepReady(rules: Rules, res: seq<set<string>>, next: set<string>)
    requires |res| >= 1 && Fuel in rules
    requires Disjoint(res) && Covers(res, rules[Fuel].lhs.Keys) && Expanded(rules, res, |res| - 1)
    requires Expandable(rules, res[|res| - 1])
    requires forall m, r :: m in res[|res| - 1] && m != Ore && r in rules[m].lhs ==> r in next
    ensures var res' := RemoveAll(res, next) + [next];
      Disjoint(res') && Covers(res', rules[Fuel].lhs.Keys) && Expanded(rules, res', |res'| - 1)
  {
    var last := |res| - 1;
    var kept := RemoveAll(res, next);
    var res' := kept + [next];
    forall i, j | 0 <= i < j < |res'| ensures res'[i] !! res'[j] {
      if j < |kept| { assert res[i] !! res[j]; }
    }
    forall r | r in rules[Fuel].lhs.Keys && r != Ore ensures InLater(res', -1, r) {
      var j :| 0 <= j < |res| && -1 < j && r in res[j];
      if r in next { assert r in res'[|res|]; } else { assert r in res'[j]; }
    }
    forall i | 0 <= i < |res'| - 1
      ensures Expandable(rules, res'[i])
      ensures forall m, r :: m in res'[i] && m != Ore && m in rules && r in rules[m].lhs && r != Ore ==> InLater(res', i, r)
    {
      forall m, r | m in res'[i] && m != Ore && m in rules && r in rules[m].lhs && r != Ore ensures InLater(res', i, r) {
        if r in next {
          assert r in res'[|res|];
        } else {
          assert m in res[i];
          assert InLater(res, i, r);
          var j :| 0 <= j < |res| && i < j && r in res[j];
          assert r in res'[j];
        }
      }
    }
  }

  /** The tiers the corrected `ord` builds are ordered. */
  lemma OrdOrdered(rules: Rules, fuel: nat)
    requires OrdSpec(rules, fuel).Ok?
    ensures Ordered(rules, OrdSpec(rules, fuel).value)
  {
    var tier0 := [rules[Fuel].lhs.Keys];
    forall r | r in rules[Fuel].lhs.Keys && r != Ore ensures InLater(tier0, -1, r) {
      assert r in tier0[0];
    }
    OrdFromOrdered(rules, tier0, fuel, true);
  }

  /** The correction only concerns runs that never end: wherever the loop
      as written stops, the corrected one stops with the same tiers. */
  lemma {:induction false} OrdFixAgrees(rules: Rules, res: seq<set<string>>, fuel: nat)
    requires |res| >= 1
    requires !OrdFrom(rules, res, fuel, false).OutOfFuel?
    ensures OrdFrom(rules, res, fuel, true) == OrdFrom(rules, res, fuel, false)
    decreases fuel
  {
    var cur := res[|res| - 1];
    if Expandable(rules, cur) {
      var next := Reqs(rules, cur);
      if next == {} {
        OrdEmptyTierLoops(rules, res, fuel);
      } else if next != {Ore} && fuel > 0 {
        OrdFixAgrees(rules, RemoveAll(res, next) + [next], fuel - 1);
      }
    }
  }

  /** As written, a tier expanding to nothing repeats forever: the empty
      tier expands to nothing again. */
  lemma {:induction false} OrdEmptyTierLoops(rules: Rules, res: seq<set<string>>, fuel: nat)
    requires |res| >= 1 && Expandable(rules, res[|res| - 1]) && Reqs(rules, res[|res| - 1]) == {}
    ensures OrdFrom(rules, res, fuel, false) == OutOfFuel
    decreases fuel
  {
    if fuel > 0 {
      var res' := RemoveAll(res, {}) + [{}];
      assert Reqs(rules, res'[|res'| - 1]) == {};
      OrdEmptyTierLoops(rules, res', fuel - 1);
    }
  }

  /** A FUEL rule that needs only ORE. */
  const OreOnly: Rules := map[Fuel := Rule(1, map[Ore := 10])]

  /** As written, `ord` never finishes on `10 ORE => 1 FUEL`: tier 0 is
      {ORE}, which expands to the empty tier, and so on without end. */
  lemma OrdAsWrittenHangs(fuel: nat)
    ensures OrdAsWritten(OreOnly, fuel) == OutOfFuel
  {
    var tier0 := [OreOnly[Fuel].lhs.Keys];
    assert tier0[0] == {Ore};
    assert Reqs(OreOnly, tier0[0]) == {};
    OrdEmptyTierLoops(OreOnly, tier0, fuel);
  }

  /** Corrected, it yields one empty tier at once. */
  lemma OrdFixedOreOnly(fuel: nat)
    ensures OrdSpec(OreOnly, fuel) == Ok([{}])
  {
    var tier0 := [OreOnly[Fuel].lhs.Keys];
    assert tier0[0] == {Ore};
    assert Reqs(OreOnly, tier0[0]) == {};
    assert RemoveAll(tier0, {Ore})[0] == {};
    assert RemoveAll(tier0, {Ore}) == [{}];
  }

  /** `ord`, with the stop condition corrected: tier by tier, each material
      of the current tier other than ORE has its ingredients removed from
      every tier so far and gathered into the next tier. */
  method Ord(rules: Rules, fuel: nat) returns (r: Result<seq<set<string>>>)
    ensures r == OrdSpec(rules, fuel)
  {
    if Fuel !in rules {
      return Err(UnwrapNone);
    }
    var res: seq<set<string>> := [rules[Fuel].lhs.Keys];
    var tier := 0;
    var left := fuel;
    while true
      invariant |res| == tier + 1
      invariant OrdFrom(rules, res, left, true) == OrdSpec(rules, fuel)
      decreases left
    {
      var expanded := ExpandTier(rules, res, tier);
      if expanded.Err? {
        return Err(expanded.error);
      }
      var next := expanded.value.1;
      if next == {Ore} {
        return Ok(expanded.value.0);
      }
      if next == {} {
        // The loop as written would go on expanding the empty tier.
        assert forall i :: 0 <= i < |res| ==> expanded.value.0[i] == res[i];
        assert expanded.value.0 == res;
        return Ok(RemoveAll(res, {Ore}));
      }
      if left == 0 {
        return OutOfFuel;
      }
      res := expanded.value.0 + [next];
      tier := tier + 1;
      left := left - 1;
    }
  }

  /** One pass of `ord` over tier `tier`, the last of `res`: the
      ingredients of its members other than ORE, gathered into the next
      tier and removed from every tier so far.  A member without a rule
      ends the pass. */
  method ExpandTier(rules: Rules, res: seq<set<string>>, tier: nat) returns (r: Result<(seq<set<string>>, set<string>)>)
    requires |res| == tier + 1
    ensures r.Ok? <==> Expandable(rules, res[tier])
    ensures !r.Ok? ==> r == Err(UnwrapNone)
    ensures r.Ok? ==> r.value.1 == Reqs(rules, res[tier]) && r.value.0 == RemoveAll(res, r.value.1)
  {
    var thisTier := res[tier];
    var next: set<string> := {};
    var todo := thisTier;
    var cur := res;
    assert forall i :: 0 <= i < |res| ==> RemoveAll(res, next)[i] == res[i];
    assert RemoveAll(res, next) == res;
    while todo != {}
      invariant todo <= thisTier && Expandable(rules, thisTier - todo)
      invariant next == Reqs(rules, thisTier - todo)
      invariant cur == RemoveAll(res, next)
      decreases todo
    {
      NonEmptyNames(todo);
      var material :| material in todo;
      ghost var doneBefore := thisTier - todo;
      todo := todo - {material};
      assert thisTier - todo == doneBefore + {material};
      if material == Ore {
        assert Reqs(rules, thisTier - todo) == Reqs(rules, doneBefore);
        continue;
      }
      if material !in rules {
        assert !Expandable(rules, thisTier);
        return Err(UnwrapNone);
      }
      cur, next := GatherReqs(cur, next, res, rules[material].lhs.Keys);
      assert Reqs(rules, thisTier - todo) == Reqs(rules, doneBefore) + rules[material].lhs.Keys;
    }
    assert thisTier - todo == thisTier;
    return Ok((cur, next));
  }

  /** Adds each of `reqs` to the next tier and removes it from every tier
      so far, in the order of the inner loops of `ord`. */
  method GatherReqs(cur: seq<set<string>>, next: set<string>, ghost start: seq<set<string>>, reqs: set<string>)
    returns (cur': seq<set<string>>, next': set<string>)
    requires cur == RemoveAll(start, next)
    ensures next' == next + reqs && cur' == RemoveAll(start, next')
  {
    var todo := reqs;
    cur', next' := cur, next;
    while todo != {}
      invariant todo <= reqs && next' == next + (reqs - todo)
      invariant cur' == RemoveAll(start, next')
      decreases todo
    {
      NonEmptyNames(todo);
      var req :| req in todo;
      todo := todo - {req};
      cur' := RemoveEverywhere(cur', req);
      next' := next' + {req};
      assert forall j :: 0 <= j < |cur'| ==> cur'[j] == RemoveAll(start, next')[j];
    }
  }

  /** Removes `req` from every tier, first to last. */
  method RemoveEverywhere(tiers: seq<set<string>>, req: string) returns (r: seq<set<string>>)
    ensures r == RemoveAll(tiers, {req})
  {
    r := tiers;
    for i := 0 to |tiers|
      invariant |r| == |tiers|
      invariant forall j :: 0 <= j < |r| ==> r[j] == tiers[j] - (if j < i then {req} else {})
    {
      r := r[i := r[i] - {req}];
    }
  }

  // ---------------------------------------------------------------------
  // Required amounts (`counted_deps`)

  type Counts = map<string, nat>

  function Get(c: Counts, k: string): nat
  {
    if k in c then c[k] else 0
  }

  /** FUEL's ingredients, each times the amount of FUEL wanted. */
  function Seed(lhs: map<string, nat>, fuelAmt: nat): (c: Counts)
    ensures c.Keys == lhs.Keys && forall k :: k in c ==> c[k] == lhs[k] * fuelAmt
  {
    map k | k in lhs :: lhs[k] * fuelAmt
  }

  /** The counts with `lhs[d] * n` added for each ingredient `d` in `keys`,
      creating missing keys. */
  function AddScaled(c: Counts, lhs: map<string, nat>, keys: set<string>, n: nat): (r: Counts)
    requires keys <= lhs.Keys
    ensures r.Keys == c.Keys + keys
    ensures forall k :: k in r ==> r[k] == Get(c, k) + (if k in keys then lhs[k] * n else 0)
  {
    map k | k in c.Keys + keys :: Get(c, k) + (if k in keys then lhs[k] * n else 0)
  }

  /** One material of a tier: its rule runs as often as its count needs,
      and each ingredient's count grows by its amount times the runs.  A
      material without a count or without a rule is fatal. */
  function Process(rules: Rules, c: Counts, m: string): Result<Counts>
  {
    if m !in c || m !in rules then Err(UnwrapNone)
    else
      var n :- RuleFires(c[m], rules[m].amt);
      Ok(AddScaled(c, rules[m].lhs, rules[m].lhs.Keys, n))
  }

  /** The materials processed in order, from the counts `c`. */
  function Accumulate(rules: Rules, c: Counts, mats: seq<string>): Result<Counts>
  {
    if mats == [] then Ok(c)
    else
      var before :- Accumulate(rules, c, mats[..|mats| - 1]);
      Process(rules, before, mats[|mats| - 1])
  }

  /** `counted_deps` when the tiers are enumerated as `mats`. */
  function Counted(rules: Rules, mats: seq<string>, fuelAmt: nat): Result<Counts>
  {
    if Fuel !in rules then Err(UnwrapNone) else Accumulate(rules, Seed(rules[Fuel].lhs, fuelAmt), mats)
  }

  function Flatten(orders: seq<seq<string>>): seq<string>
  {
    if orders == [] then [] else Flatten(orders[..|orders| - 1]) + orders[|orders| - 1]
  }

  /** `order` lists distinct members of `tier`; all of them if `complete`. */
  ghost predicate Lists(order: seq<string>, tier: set<string>, complete: bool)
  {
    (forall i, j :: 0 <= i < j < |order| ==> order[i] != order[j])
    && (forall i :: 0 <= i < |order| ==> order[i] in tier)
    && (complete ==> forall m :: m in tier ==> m in order)
  }

  /** `orders` enumerates the tiers in order: every tier completely when
      `complete`, otherwise all but the last of `orders` completely. */
  ghost predicate Enumerates(orders: seq<seq<string>>, tiers: seq<set<string>>, complete: bool)
  {
    |orders| <= |tiers| && (complete ==> |orders| == |tiers|)
    && forall i :: 0 <= i < |orders| ==> Lists(orders[i], tiers[i], complete || i < |orders| - 1)
  }

  /** Processing a material never lowers a count nor drops a key. */
  lemma ProcessGrows(rules: Rules, c: Counts, m: string)
    requires Process(rules, c, m).Ok?
    ensures var c' := Process(rules, c, m).value;
      c.Keys <= c'.Keys && forall k :: k in c ==> c[k] <= c'[k]
  {
  }

  /** Counts never decrease: every count of a successful accumulation is at
      least what it started with. */
  lemma {:induction false} AccumulateGrows(rules: Rules, c: Counts, mats: seq<string>)
    requires Accumulate(rules, c, mats).Ok?
    ensures var c' := Accumulate(rules, c, mats).value;
      c.Keys <= c'.Keys && forall k :: k in c ==> c[k] <= c'[k]
  {
    if mats != [] {
      var front := mats[..|mats| - 1];
      AccumulateGrows(rules, c, front);
      ProcessGrows(rules, Accumulate(rules, c, front).value, mats[|mats| - 1]);
    }
  }

  /** Each ingredient of FUEL ends with at least its amount times the FUEL
      wanted. */
  lemma CountedCoversSeed(rules: Rules, mats: seq<string>, fuelAmt: nat)
    requires Counted(rules, mats, fuelAmt).Ok?
    ensures forall k :: k in rules[Fuel].lhs ==>
      k in Counted(rules, mats, fuelAmt).value && Counted(rules, mats, fuelAmt).value[k] >= rules[Fuel].lhs[k] * fuelAmt
  {
    AccumulateGrows(rules, Seed(rules[Fuel].lhs, fuelAmt), mats);
  }

  lemma AccumulateStep(rules: Rules, c: Counts, mats: seq<string>, m: string)
    ensures Accumulate(rules, c, mats + [m]) ==
      (match Accumulate(rules, c, mats)
       case Ok(before) => Process(rules, before, m)
       case Err(e) => Err(e)
       case OutOfFuel => OutOfFuel)
  {
    assert (mats + [m])[..|mats|] == mats;
  }

  /** The seeding loop of `counted_deps`. */
  method SeedCounts(lhs: map<string, nat>, fuelAmt: nat) returns (counted: Counts)
    ensures counted == Seed(lhs, fuelAmt)
  {
    counted := map[];
    var todo := lhs.Keys;
    while todo != {}
      invariant todo <= lhs.Keys
      invariant counted == Seed(lhs, fuelAmt) - todo
      decreases todo
    {
      NonEmptyNames(todo);
      var mat :| mat in todo;
      todo := todo - {mat};
      counted := counted[mat := lhs[mat] * fuelAmt];
    }
  }

  /** The body of `counted_deps`' loop over one material. */
  method ProcessMaterial(rules: Rules, counted: Counts, material: string) returns (r: Result<Counts>)
    ensures r == Process(rules, counted, material)
  {
    if material !in counted || material !in rules {
      return Err(UnwrapNone);
    }
    var rule := rules[material];
    var n := RuleFires(counted[material], rule.amt);
    if !n.Ok? {
      return n.PropagateFailure();
    }
    var c := counted;
    var keys := rule.lhs.Keys;
    while keys != {}
      invariant keys <= rule.lhs.Keys
      invariant c == AddScaled(counted, rule.lhs, rule.lhs.Keys - keys, n.value)
      decreases keys
    {
      NonEmptyNames(keys);
      var dep :| dep in keys;
      ghost var done := rule.lhs.Keys - keys;
      keys := keys - {dep};
      assert rule.lhs.Keys - keys == done + {dep};
      c := c[dep := Get(c, dep) + rule.lhs[dep] * n.value];
    }
    assert rule.lhs.Keys - keys == rule.lhs.Keys;
    r := Ok(c);
  }

  /** `counted_deps`: seeds FUEL's ingredients, then processes the tiers
      in order, each in the iteration order of its set. */
  method CountedDeps(rules: Rules, deps: seq<set<string>>, fuelAmt: nat) returns (r: Result<Counts>, ghost orders: seq<seq<string>>)
    ensures Enumerates(orders, deps, r.Ok?)
    ensures r == Counted(rules, Flatten(orders), fuelAmt)
  {
    orders := [];
    if Fuel !in rules {
      return Err(UnwrapNone), orders;
    }
    var seed := SeedCounts(rules[Fuel].lhs, fuelAmt);
    var counted := seed;
    for t := 0 to |deps|
      invariant |orders| == t && forall i :: 0 <= i < t ==> Lists(orders[i], deps[i], true)
      invariant Accumulate(rules, seed, Flatten(orders)) == Ok(counted)
    {
      var next, order := CountTier(rules, seed, Flatten(orders), deps[t], counted);
      FlattenSnoc(orders, order);
      if !next.Ok? {
        return next, orders + [order];
      }
      counted := next.value;
      orders := orders + [order];
    }
    r := Ok(counted);
  }

  lemma FlattenSnoc(orders: seq<seq<string>>, order: seq<string>)
    ensures Flatten(orders + [order]) == Flatten(orders) + order
  {
    assert (orders + [order])[..|orders|] == orders;
  }

  /** The inner loop of `counted_deps`: one tier, in the iteration order
      of its set, after the materials `prefix` already processed. */
  method CountTier(rules: Rules, ghost seed: Counts, ghost prefix: seq<string>, tier: set<string>, counted0: Counts)
      returns (r: Result<Counts>, ghost order: seq<string>)
    requires Accumulate(rules, seed, prefix) == Ok(counted0)
    ensures Lists(order, tier, r.Ok?)
    ensures r == Accumulate(rules, seed, prefix + order)
  {
    var todo := tier;
    var counted := counted0;
    order := [];
    assert prefix + order == prefix;
    while todo != {}
      invariant todo <= tier
      invariant Lists(order, tier, false) && forall m :: m in tier ==> (m in order <==> m !in todo)
      invariant Accumulate(rules, seed, prefix + order) == Ok(counted)
      decreases todo
    {
      NonEmptyNames(todo);
      var material :| material in todo;
      todo := todo - {material};
      AccumulateStep(rules, seed, prefix + order, material);
      assert prefix + (order + [material]) == prefix + order + [material];
      order := order + [material];
      var next := ProcessMaterial(rules, counted, material);
      if !next.Ok? {
        return next, order;
      }
      counted := next.value;
    }
    r := Ok(counted);
  }

  // ---------------------------------------------------------------------
  // Independence from the iteration order within a tier

  /** `y` is not an ingredient of `x`. */
  predicate NotIngredient(rules: Rules, x: string, y: string)
  {
    x in rules ==> y !in rules[x].lhs
  }

  /** No member of `tier` is an ingredient of another. */
  ghost predicate Unrelated(rules: Rules, tier: set<string>)
  {
    forall x, y {:trigger NotIngredient(rules, x, y)} :: x in tier && y in tier && x != y ==> NotIngredient(rules, x, y)
  }

  /** Within a tier of ordered tiers, no material consumes another: its
      ingredients all lie in later tiers. */
  lemma OrderedUnrelated(rules: Rules, tiers: seq<set<string>>, i: nat)
    requires Ordered(rules, tiers) && i < |tiers|
    ensures Unrelated(rules, tiers[i])
  {
    forall x, y | x in tiers[i] && y in tiers[i] && x != y
      ensures NotIngredient(rules, x, y)
    {
      assert x != Ore && y != Ore;
      assert x in rules && y in rules[x].lhs ==> InLater(tiers, i, y);
      assert forall j :: 0 <= j < |tiers| && i < j ==> y !in tiers[j];
    }
  }

  /** Two materials neither of which consumes the other can be processed
      in either order. */
  lemma ProcessCommute(rules: Rules, c: Counts, x: string, y: string)
    requires x == y || (NotIngredient(rules, x, y) && NotIngredient(rules, y, x))
    requires Process(rules, c, x).Ok? && Process(rules, Process(rules, c, x).value, y).Ok?
    ensures Process(rules, c, y).Ok?
    ensures Process(rules, Process(rules, c, y).value, x) == Process(rules, Process(rules, c, x).value, y)
  {
    if x != y {
      var cx := Process(rules, c, x).value;
      assert y in c && cx[y] == c[y];
      var cy := Process(rules, c, y).value;
      assert x in cy && cy[x] == c[x];
      var nx := RuleFires(c[x], rules[x].amt).value;
      var ny := RuleFires(c[y], rules[y].amt).value;
      var l := AddScaled(cy, rules[x].lhs, rules[x].lhs.Keys, nx);
      var r := AddScaled(cx, rules[y].lhs, rules[y].lhs.Keys, ny);
      assert Process(rules, cy, x) == Ok(l) && Process(rules, cx, y) == Ok(r);
      assert l.Keys == r.Keys;
      assert l == r;
    }
  }

  /** Processing `a` and then `b` is processing `a + b`. */
  lemma {:induction false} AccumulateAppend(rules: Rules, c: Counts, a: seq<string>, b: seq<string>)
    ensures Accumulate(rules, c, a).Ok? ==>
      Accumulate(rules, c, a + b) == Accumulate(rules, Accumulate(rules, c, a).value, b)
    ensures !Accumulate(rules, c, a).Ok? ==> !Accumulate(rules, c, a + b).Ok?
    decreases |b|
  {
    if b == [] {
      assert a + b == a;
    } else {
      var b' := b[..|b| - 1];
      assert a + b == (a + b') + [b[|b| - 1]];
      AccumulateAppend(rules, c, a, b');
      AccumulateStep(rules, c, a + b', b[|b| - 1]);
      if Accumulate(rules, c, a).Ok? {
        assert b == b' + [b[|b| - 1]];
        AccumulateStep(rules, Accumulate(rules, c, a).value, b', b[|b| - 1]);
      }
    }
  }

  /** A material unrelated to every material after it can be processed
      last instead. */
  lemma {:induction false} MoveLast(rules: Rules, c: Counts, x: string, q: seq<string>)
    requires forall k :: 0 <= k < |q| ==> x == q[k] || (NotIngredient(rules, x, q[k]) && NotIngredient(rules, q[k], x))
    requires Accumulate(rules, c, [x] + q).Ok?
    ensures Accumulate(rules, c, q + [x]) == Accumulate(rules, c, [x] + q)
    decreases |q|
  {
    if q == [] {
      assert q + [x] == [x] + q;
    } else {
      var q', y := q[..|q| - 1], q[|q| - 1];
      assert [x] + q == ([x] + q') + [y];
      AccumulateStep(rules, c, [x] + q', y);
      MoveLast(rules, c, x, q');
      AccumulateStep(rules, c, q', x);
      var d := Accumulate(rules, c, q').value;
      ProcessCommute(rules, d, x, y);
      assert q == q' + [y];
      assert q + [x] == (q' + [y]) + [x];
      AccumulateStep(rules, c, q', y);
      AccumulateStep(rules, c, q' + [y], x);
    }
  }

  /** Removing the element at `k` leaves the other elements, in order. */
  lemma RemoveAt(a: seq<string>, k: nat)
    requires k < |a|
    ensures var a' := a[..k] + a[k + 1..];
      && |a'| == |a| - 1 && multiset(a) == multiset(a') + multiset{a[k]}
      && forall j :: 0 <= j < |a'| ==> a'[j] == (if j < k then a[j] else a[j + 1])
  {
    assert a == a[..k] + [a[k]] + a[k + 1..];
  }

  /** A material of an unrelated tier can be moved from anywhere in a
      listing of that tier to its end. */
  lemma MoveToEnd(rules: Rules, tier: set<string>, c: Counts, a: seq<string>, k: nat)
    requires Unrelated(rules, tier) && k < |a|
    requires (forall j :: 0 <= j < |a| ==> a[j] in tier) && Accumulate(rules, c, a).Ok?
    ensures Accumulate(rules, c, a[..k] + a[k + 1..] + [a[k]]) == Accumulate(rules, c, a)
  {
    var x, p, q := a[k], a[..k], a[k + 1..];
    assert a == p + ([x] + q);
    AccumulateAppend(rules, c, p, [x] + q);
    var e := Accumulate(rules, c, p).value;
    assert forall j :: 0 <= j < |q| ==> q[j] == a[k + 1 + j];
    MoveLast(rules, e, x, q);
    AccumulateAppend(rules, c, p, q + [x]);
    assert p + (q + [x]) == p + q + [x];
  }

  /** Taking the element at `k` out of a listing of an unrelated tier and
      processing it last gives the same counts, and the rest still succeeds. */
  lemma TakeOut(rules: Rules, tier: set<string>, c: Counts, a: seq<string>, k: nat) returns (a': seq<string>)
    requires Unrelated(rules, tier) && k < |a|
    requires (forall j :: 0 <= j < |a| ==> a[j] in tier) && Accumulate(rules, c, a).Ok?
    ensures multiset(a) == multiset(a') + multiset{a[k]}
    ensures forall j :: 0 <= j < |a'| ==> a'[j] in tier
    ensures Accumulate(rules, c, a' + [a[k]]) == Accumulate(rules, c, a) && Accumulate(rules, c, a').Ok?
  {
    a' := a[..k] + a[k + 1..];
    MoveToEnd(rules, tier, c, a, k);
    RemoveAt(a, k);
    AccumulateAppend(rules, c, a', [a[k]]);
  }

  /** Listings with equal counts stay equal when one more material is
      processed after each. */
  lemma SameStep(rules: Rules, c: Counts, u: seq<string>, v: seq<string>, x: string)
    requires Accumulate(rules, c, u) == Accumulate(rules, c, v)
    ensures Accumulate(rules, c, u + [x]) == Accumulate(rules, c, v + [x])
  {
    AccumulateStep(rules, c, u, x);
    AccumulateStep(rules, c, v, x);
  }

  lemma MultisetCancel(p: multiset<string>, q: multiset<string>, x: string)
    requires p + multiset{x} == q + multiset{x}
    ensures p == q
  {
    forall y ensures p[y] == q[y] {
      assert (p + multiset{x})[y] == (q + multiset{x})[y];
    }
  }

  /** Any rearrangement of materials of one unrelated tier gives the same
      counts. */
  lemma {:induction false} PermSame(rules: Rules, tier: set<string>, c: Counts, a: seq<string>, b: seq<string>)
    requires Unrelated(rules, tier)
    requires (forall k :: 0 <= k < |a| ==> a[k] in tier) && multiset(a) == multiset(b)
    requires Accumulate(rules, c, a).Ok?
    ensures Accumulate(rules, c, b) == Accumulate(rules, c, a)
    decreases |b|
  {
    if b == [] {
      assert |a| == |multiset(a)| == 0;
    } else {
      var b', x := b[..|b| - 1], b[|b| - 1];
      assert b == b' + [x];
      assert x in multiset(b);
      var k :| 0 <= k < |a| && a[k] == x;
      var a' := TakeOut(rules, tier, c, a, k);
      assert multiset(b) == multiset(b') + multiset{x};
      MultisetCancel(multiset(a'), multiset(b'), x);
      PermSame(rules, tier, c, a', b');
      SameStep(rules, c, a', b', x);
    }
  }

  /** Tier by tier, rearranging each tier's materials gives the same
      counts. */
  lemma {:induction false} OrdersSame(rules: Rules, tiers: seq<set<string>>, c: Counts, o1: seq<seq<string>>, o2: seq<seq<string>>)
    requires |o1| == |o2| <= |tiers|
    requires forall i :: 0 <= i < |o1| ==>
      Unrelated(rules, tiers[i]) && (forall k :: 0 <= k < |o1[i]| ==> o1[i][k] in tiers[i]) && multiset(o1[i]) == multiset(o2[i])
    requires Accumulate(rules, c, Flatten(o1)).Ok?
    ensures Accumulate(rules, c, Flatten(o2)) == Accumulate(rules, c, Flatten(o1))
    decreases |o1|
  {
    if o1 != [] {
      var n := |o1| - 1;
      AccumulateAppend(rules, c, Flatten(o1[..n]), o1[n]);
      AccumulateAppend(rules, c, Flatten(o2[..n]), o2[n]);
      OrdersSame(rules, tiers, c, o1[..n], o2[..n]);
      var e := Accumulate(rules, c, Flatten(o1[..n])).value;
      PermSame(rules, tiers[n], e, o1[n], o2[n]);
    }
  }

  /** A list without repeats holds each element once. */
  lemma {:induction false} DistinctCount(a: seq<string>, m: string)
    requires forall i, j :: 0 <= i < j < |a| ==> a[i] != a[j]
    ensures multiset(a)[m] == if m in a then 1 else 0
    decreases |a|
  {
    if a != [] {
      var a' := a[..|a| - 1];
      assert a == a' + [a[|a| - 1]];
      DistinctCount(a', m);
    }
  }

  /** Two complete listings of a tier are rearrangements of each other. */
  lemma ListsMultiset(a: seq<string>, b: seq<string>, tier: set<string>)
    requires Lists(a, tier, true) && Lists(b, tier, true)
    ensures multiset(a) == multiset(b)
  {
    forall m ensures multiset(a)[m] == multiset(b)[m] {
      DistinctCount(a, m);
      DistinctCount(b, m);
    }
  }

  /** The elements of `s` not in `p`, in order. */
  function Without(s: seq<string>, p: seq<string>): (r: seq<string>)
    ensures forall k :: 0 <= k < |r| ==> r[k] in s && r[k] !in p
  {
    if s == [] then [] else Without(s[..|s| - 1], p) + (if s[|s| - 1] in p then [] else [s[|s| - 1]])
  }

  lemma {:induction false} WithoutCount(s: seq<string>, p: seq<string>, m: string)
    ensures multiset(Without(s, p))[m] == if m in p then 0 else multiset(s)[m]
    decreases |s|
  {
    if s != [] {
      var s' := s[..|s| - 1];
      assert s == s' + [s[|s| - 1]];
      WithoutCount(s', p, m);
    }
  }

  /** A partial listing `p` of a tier, followed by the rest of a complete
      listing `a`, is a rearrangement of `a`. */
  lemma CompleteListing(a: seq<string>, p: seq<string>, tier: set<string>)
    requires Lists(a, tier, true) && Lists(p, tier, false)
    ensures multiset(p + Without(a, p)) == multiset(a)
  {
    forall m ensures multiset(p + Without(a, p))[m] == multiset(a)[m] {
      DistinctCount(a, m);
      DistinctCount(p, m);
      WithoutCount(a, p, m);
    }
  }

  /** Succeeding on the whole of some tiers succeeds on a prefix of them. */
  lemma {:induction false} FlattenPrefixOk(rules: Rules, c: Counts, o: seq<seq<string>>, k: nat)
    requires k <= |o|
    ensures Accumulate(rules, c, Flatten(o)).Ok? ==> Accumulate(rules, c, Flatten(o[..k])).Ok?
    decreases |o| - k
  {
    if k < |o| {
      FlattenPrefixOk(rules, c, o, k + 1);
      assert o[..k + 1][..k] == o[..k];
      AccumulateAppend(rules, c, Flatten(o[..k]), o[k]);
    } else {
      assert o[..k] == o;
    }
  }

  /** If some complete enumeration of unrelated tiers succeeds, so does
      every partial one. */
  lemma PartialSucceeds(rules: Rules, tiers: seq<set<string>>, c: Counts, orders: seq<seq<string>>, o: seq<seq<string>>)
    requires forall i :: 0 <= i < |tiers| ==> Unrelated(rules, tiers[i])
    requires Enumerates(orders, tiers, false) && Enumerates(o, tiers, true)
    ensures Accumulate(rules, c, Flatten(o)).Ok? ==> Accumulate(rules, c, Flatten(orders)).Ok?
  {
    if orders != [] && Accumulate(rules, c, Flatten(o)).Ok? {
      var n := |orders| - 1;
      FlattenPrefixOk(rules, c, o, n + 1);
      assert o[..n + 1][..n] == o[..n];
      AccumulateAppend(rules, c, Flatten(o[..n]), o[n]);
      forall i | 0 <= i < n ensures multiset(o[..n][i]) == multiset(orders[..n][i]) {
        ListsMultiset(o[i], orders[i], tiers[i]);
      }
      OrdersSame(rules, tiers, c, o[..n], orders[..n]);
      var e := Accumulate(rules, c, Flatten(o[..n])).value;
      CompleteListing(o[n], orders[n], tiers[n]);
      PermSame(rules, tiers[n], e, o[n], orders[n] + Without(o[n], orders[n]));
      AccumulateAppend(rules, e, orders[n], Without(o[n], orders[n]));
      AccumulateAppend(rules, c, Flatten(orders[..n]), orders[n]);
      assert orders == orders[..n] + [orders[n]];
    }
  }

  /** `counted_deps` does not depend on the iteration order of the tiers'
      sets: over ordered tiers, two complete enumerations succeed together
      and then give the same counts. */
  lemma CountedOrderFree(rules: Rules, tiers: seq<set<string>>, o1: seq<seq<string>>, o2: seq<seq<string>>, n: nat)
    requires Ordered(rules, tiers) && Enumerates(o1, tiers, true) && Enumerates(o2, tiers, true)
    ensures Counted(rules, Flatten(o1), n).Ok? <==> Counted(rules, Flatten(o2), n).Ok?
    ensures Counted(rules, Flatten(o1), n).Ok? ==> Counted(rules, Flatten(o1), n) == Counted(rules, Flatten(o2), n)
  {
    forall i | 0 <= i < |tiers| ensures Unrelated(rules, tiers[i]) {
      OrderedUnrelated(rules, tiers, i);
    }
    forall i | 0 <= i < |o1| ensures multiset(o1[i]) == multiset(o2[i]) {
      ListsMultiset(o1[i], o2[i], tiers[i]);
    }
    var seed := Seed(rules[Fuel].lhs, n);
    if Accumulate(rules, seed, Flatten(o1)).Ok? {
      OrdersSame(rules, tiers, seed, o1, o2);
    }
    if Accumulate(rules, seed, Flatten(o2)).Ok? {
      forall i | 0 <= i < |o2| ensures multiset(o2[i]) == multiset(o1[i]) {
        ListsMultiset(o2[i], o1[i], tiers[i]);
      }
      OrdersSame(rules, tiers, seed, o2, o1);
    }
  }

  /** The ORE count of the enumeration `counted_deps` happened to take is
      the ORE count of every complete enumeration of ordered tiers, and it
      fails exactly when they do. */
  lemma OreOrderFree(rules: Rules, tiers: seq<set<string>>, orders: seq<seq<string>>, n: nat)
    requires Ordered(rules, tiers)
    requires Enumerates(orders, tiers, Counted(rules, Flatten(orders), n).Ok?)
    ensures forall o :: Enumerates(o, tiers, true) ==>
      && (OreFor(rules, Flatten(orders), n).Ok? <==> OreFor(rules, Flatten(o), n).Ok?)
      && (OreFor(rules, Flatten(orders), n).Ok? ==> OreFor(rules, Flatten(o), n) == OreFor(rules, Flatten(orders), n))
  {
    forall i | 0 <= i < |tiers| ensures Unrelated(rules, tiers[i]) {
      OrderedUnrelated(rules, tiers, i);
    }
    forall o | Enumerates(o, tiers, true)
      ensures OreFor(rules, Flatten(orders), n).Ok? <==> OreFor(rules, Flatten(o), n).Ok?
      ensures OreFor(rules, Flatten(orders), n).Ok? ==> OreFor(rules, Flatten(o), n) == OreFor(rules, Flatten(orders), n)
    {
      if Counted(rules, Flatten(orders), n).Ok? {
        CountedOrderFree(rules, tiers, orders, o, n);
      } else {
        PartialSucceeds(rules, tiers, Seed(rules[Fuel].lhs, n), orders, o);
      }
    }
  }

  /** With the corrected ordering, `10 ORE => 1 FUEL` needs 10 ORE for one
      FUEL, in whatever order the (single, empty) tier is enumerated. */
  lemma OreOnlyNeedsTen(fuel: nat)
    ensures OrdSpec(OreOnly, fuel) == Ok([{}]) && Enumerates([[]], [{}], true)
    ensures forall o :: Enumerates(o, [{}], true) ==> OreFor(OreOnly, Flatten(o), 1) == Ok(10)
  {
    OrdFixedOreOnly(fuel);
    var none: set<string> := {};
    assert Lists([], none, true);
    assert Enumerates([[]], [none], true);
    var seed := Seed(OreOnly[Fuel].lhs, 1);
    assert seed.Keys == {Ore} && seed[Ore] == 10;
    assert Counted(OreOnly, [], 1) == Ok(seed);
    forall o | Enumerates(o, [none], true) ensures OreFor(OreOnly, Flatten(o), 1) == Ok(10) {
      assert |o| == 1 && Lists(o[0], none, true);
      ListsMultiset(o[0], [], none);
      assert |o[0]| == |multiset(o[0])| == 0;
      assert o == [[]];
      assert Flatten(o) == Flatten([]) + [];
    }
  }

  // ---------------------------------------------------------------------
  // The answers

  const Supply: nat := 1000000000000

  /** The ORE count for `fuelAmt` FUEL when the tiers are enumerated as
      `mats`; a missing ORE count is fatal. */
  function OreFor(rules: Rules, mats: seq<string>, fuelAmt: nat): Result<nat>
  {
    var c :- Counted(rules, mats, fuelAmt);
    if Ore in c then Ok(c[Ore]) else Err(UnwrapNone)
  }

  /** `*counted_deps(..).get("ORE").unwrap()`. */
  method OreAmount(rules: Rules, deps: seq<set<string>>, fuelAmt: nat) returns (r: Result<nat>, ghost orders: seq<seq<string>>)
    ensures Enumerates(orders, deps, Counted(rules, Flatten(orders), fuelAmt).Ok?)
    ensures r == OreFor(rules, Flatten(orders), fuelAmt)
    // Over ordered tiers, every complete listing gives the same answer.
    ensures Ordered(rules, deps) ==>
      forall o :: Enumerates(o, deps, true) ==>
        && (r.Ok? <==> OreFor(rules, Flatten(o), fuelAmt).Ok?)
        && (r.Ok? ==> r == OreFor(rules, Flatten(o), fuelAmt))
  {
    var counted;
    counted, orders := CountedDeps(rules, deps, fuelAmt);
    if Ordered(rules, deps) {
      OreOrderFree(rules, deps, orders, fuelAmt);
    }
    if !counted.Ok? {
      return counted.PropagateFailure(), orders;
    }
    if Ore !in counted.value {
      return Err(UnwrapNone), orders;
    }
    r := Ok(counted.value[Ore]);
  }

  /** `fourteen_a`: the ORE needed for one FUEL, `fuel` bounding the
      number of tiers. */
  method FourteenA(lines: seq<string>, fuel: nat) returns (r: Result<nat>, ghost orders: seq<seq<string>>)
    ensures !RulesOf(lines).Ok? ==> r == RulesOf(lines).PropagateFailure()
    ensures RulesOf(lines).Ok? && !OrdSpec(RulesOf(lines).value, fuel).Ok? ==>
      r == OrdSpec(RulesOf(lines).value, fuel).PropagateFailure()
    ensures RulesOf(lines).Ok? && OrdSpec(RulesOf(lines).value, fuel).Ok? ==>
      && Enumerates(orders, OrdSpec(RulesOf(lines).value, fuel).value, r.Ok?)
      && r == OreFor(RulesOf(lines).value, Flatten(orders), 1)
    // The answer does not depend on the order in which each tier is listed.
    ensures RulesOf(lines).Ok? && OrdSpec(RulesOf(lines).value, fuel).Ok? ==>
      forall o :: Enumerates(o, OrdSpec(RulesOf(lines).value, fuel).value, true) ==>
        && (r.Ok? <==> OreFor(RulesOf(lines).value, Flatten(o), 1).Ok?)
        && (r.Ok? ==> r == OreFor(RulesOf(lines).value, Flatten(o), 1))
  {
    orders := [];
    var rules := ReadRules(lines);
    if !rules.Ok? {
      return rules.PropagateFailure(), orders;
    }
    var deps := Ord(rules.value, fuel);
    if !deps.Ok? {
      return deps.PropagateFailure(), orders;
    }
    r, orders := OreAmount(rules.value, deps.value, 1);
    OrdOrdered(rules.value, fuel);
  }

  /** How many FUEL `ore` buys at `cost` ORE each, rounded down. */
  function Buys(ore: nat, cost: nat): (n: nat)
    requires cost > 0
    ensures n * cost <= ore < (n + 1) * cost
  {
    var q := ore / cost;
    assert ore == cost * q + ore % cost;
    q
  }

  /** The search loop of `fourteen_b`: from the supply divided by the
      cost of one FUEL, adds what the left-over ORE buys at that cost until
      the ORE cost stops changing; `fuel` bounds the rounds.  An amount it
      returns is affordable: its ORE cost is within the supply. */
  method Converge(rules: Rules, deps: seq<set<string>>, costForOne: nat, fuel: nat) returns (r: Result<nat>, ghost orders: seq<seq<string>>)
    requires costForOne > 0
    ensures r.Ok? ==> Enumerates(orders, deps, true)
    ensures r.Ok? ==> OreFor(rules, Flatten(orders), r.value).Ok? && OreFor(rules, Flatten(orders), r.value).value <= Supply
  {
    var guess: nat := Buys(Supply, costForOne);
    var cost;
    cost, orders := OreAmount(rules, deps, guess);
    if !cost.Ok? {
      return cost, orders;
    }
    var oreCost := cost.value;
    var left := fuel;
    while true
      invariant OreFor(rules, Flatten(orders), guess) == Ok(oreCost)
      invariant Enumerates(orders, deps, true)
      decreases left
    {
      if oreCost > Supply {
        return Err(SubtractOverflow), orders;
      }
      if left == 0 {
        return OutOfFuel, orders;
      }
      guess := guess + Buys(Supply - oreCost, costForOne);
      var next;
      next, orders := OreAmount(rules, deps, guess);
      if !next.Ok? {
        return next, orders;
      }
      if next.value == oreCost {
        return Ok(guess), orders;
      }
      oreCost := next.value;
      left := left - 1;
    }
  }

  /** `fourteen_b`, `fuel` bounding both the tiers and the rounds. */
  method FourteenB(lines: seq<string>, fuel: nat) returns (r: Result<nat>, ghost orders: seq<seq<string>>)
    ensures r.Ok? ==>
      && RulesOf(lines).Ok? && OrdSpec(RulesOf(lines).value, fuel).Ok?
      && Enumerates(orders, OrdSpec(RulesOf(lines).value, fuel).value, true)
      && OreFor(RulesOf(lines).value, Flatten(orders), r.value).Ok?
      && OreFor(RulesOf(lines).value, Flatten(orders), r.value).value <= Supply
  {
    orders := [];
    var rules := ReadRules(lines);
    if !rules.Ok? {
      return rules.PropagateFailure(), orders;
    }
    var deps := Ord(rules.value, fuel);
    if !deps.Ok? {
      return deps.PropagateFailure(), orders;
    }
    var costForOne, _ := OreAmount(rules.value, deps.value, 1);
    if !costForOne.Ok? {
      return costForOne, orders;
    }
    if costForOne.value == 0 {
      return Err(DivideByZero), orders;
    }
    r, orders := Converge(rules.value, deps.value, costForOne.value, fuel);
  }
}
