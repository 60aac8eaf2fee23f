/**
 * Day 1 (src/one.rs): fuel for a module of a given mass is its mass
 * divided by three, rounded toward zero, minus two; part two also fuels
 * the fuel until a step asks for nothing.  The input is the sequence of
 * lines `BufRead::lines` yields.
 */
module One {
  import opened Wrappers
  import opened IntMath
  import opened Text

  const ParseError: string := "error parsing input line as number"

  /** `fuel_for_mass`, with Rust's truncating division. */
  function FuelForMass(mass: int): (f: int)
    ensures mass >= 0 ==> f == mass / 3 - 2
    ensures mass > 0 ==> f < mass
    ensures mass <= 0 ==> f <= -2
  {
    QuotRemSpec(mass, 3);
    if mass >= 0 then QuotOfNatural(mass, 3); Quot(mass, 3) - 2 else Quot(mass, 3) - 2
  }

  /** The fuel `one_b` adds for a first fuel amount `f`: `f`, then the fuel
      for `f`, and so on, up to the first amount that is not positive. */
  function FuelChain(f: int): (total: int)
    ensures total >= 0
    ensures f <= 0 ==> total == 0
    ensures f > 0 ==> total >= f
    decreases if f > 0 then f else 0
  {
    if f <= 0 then 0 else f + FuelChain(FuelForMass(f))
  }

  /** Every line parsed as an `i32`; a bad line is fatal. */
  function ParseMasses(lines: seq<string>): (r: Result<seq<int>>)
    ensures r.Ok? <==> forall k :: 0 <= k < |lines| ==> ParseI32(lines[k]).Some?
    ensures r.Ok? ==> |r.value| == |lines|
    ensures r.Ok? ==> forall k :: 0 <= k < |lines| ==> r.value[k] == ParseI32(lines[k]).value
    ensures !r.Ok? ==> r == Err(ParseError)
  {
    if lines == [] then Ok([])
    else
      match ParseI32(lines[0])
      case None => Err(ParseError)
      case Some(m) =>
        var rest :- ParseMasses(lines[1..]);
        Ok([m] + rest)
  }

  /** Sum of the first fuel amounts of the masses. */
  function SumFuel(masses: seq<int>): int
  {
    if masses == [] then 0 else SumFuel(masses[..|masses| - 1]) + FuelForMass(masses[|masses| - 1])
  }

  /** Sum of the fuel chains of the masses. */
  function SumChains(masses: seq<int>): (total: int)
    ensures total >= 0
  {
    if masses == [] then 0 else SumChains(masses[..|masses| - 1]) + FuelChain(FuelForMass(masses[|masses| - 1]))
  }

  /** `one_a`: the sum of `fuel_for_mass` over the lines. */
  method OneA(lines: seq<string>) returns (r: Result<int>)
    ensures ParseMasses(lines).Ok? ==> r == Ok(SumFuel(ParseMasses(lines).value))
    ensures !ParseMasses(lines).Ok? ==> r == Err(ParseError)
  {
    var total := 0;
    ghost var masses: seq<int> := [];
    for k := 0 to |lines|
      invariant |masses| == k
      invariant forall j :: 0 <= j < k ==> ParseI32(lines[j]).Some? && masses[j] == ParseI32(lines[j]).value
      invariant total == SumFuel(masses)
    {
      var mass := ParseI32(lines[k]);
      if mass.None? {
        return Err(ParseError);
      }
      masses := masses + [mass.value];
      assert masses[..|masses| - 1] == masses[..k];
      total := total + FuelForMass(mass.value);
    }
    assert masses == ParseMasses(lines).value;
    r := Ok(total);
  }

  /** `one_b`: per line, adds the fuel, then the fuel for that fuel, while
      it stays positive. */
  method OneB(lines: seq<string>) returns (r: Result<int>)
    ensures ParseMasses(lines).Ok? ==> r == Ok(SumChains(ParseMasses(lines).value))
    ensures !ParseMasses(lines).Ok? ==> r == Err(ParseError)
    ensures r.Ok? ==> r.value >= 0
  {
    var total := 0;
    ghost var masses: seq<int> := [];
    for k := 0 to |lines|
      invariant |masses| == k
      invariant forall j :: 0 <= j < k ==> ParseI32(lines[j]).Some? && masses[j] == ParseI32(lines[j]).value
      invariant total == SumChains(masses)
    {
      var mass := ParseI32(lines[k]);
      if mass.None? {
        return Err(ParseError);
      }
      var fuel := FuelForMass(mass.value);
      ghost var start := total;
      while fuel > 0
        invariant total + FuelChain(fuel) == start + FuelChain(FuelForMass(mass.value))
        decreases if fuel > 0 then fuel else 0
      {
        total := total + fuel;
        fuel := FuelForMass(fuel);
      }
      masses := masses + [mass.value];
      assert masses[..|masses| - 1] == masses[..k];
    }
    assert masses == ParseMasses(lines).value;
    r := Ok(total);
  }
}
