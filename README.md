# aoc_2019 in Dafny

This project models the logic of a set of Advent of Code 2019 solutions written in Rust:

- the Intcode interpreter;
- the puzzles that run it (day two);
- the self-contained puzzle kernels of days one, three, four, six, seven, eight, ten, twelve, fourteen and fifteen;
- the shared grid `Point`.

Each Rust file is one Dafny module of the same name:

| module | models |
|---|---|
| `Intcode` | `src/intcode.rs` |
| `Two` | `src/two.rs` |
| `One` | `src/one.rs` |
| `Three` | `src/three.rs` |
| `Four` | `src/four.rs` |
| `Six` | `src/six.rs` |
| `Seven` | `src/seven.rs` |
| `Eight` | `src/eight.rs` |
| `Ten` | `src/ten.rs` |
| `Twelve` | `src/twelve.rs` |
| `Fourteen` | `src/fourteen.rs` |
| `Fifteen` | `src/fifteen.rs` |
| `Points` | `src/point.rs` |

`src/three.rs` declares a private copy of `Point` with the same moves, distance and ordering. `Three` uses `Points` for it.

Four helper modules stand for the parts of the Rust standard library the code leans on:

- `Wrappers` holds `Result` and `Option`;
- `IntMath` holds truncating `/` and `%`, `abs`, `sign` and powers;
- `Text` holds `trim`, `split`, `splitn` and `parse::<i32>`/`parse::<usize>` on strings;
- `Maps` holds map insertion and sums over maps.

The Rust code is carried over as follows:

- **Panics become errors.** Every panic, `unwrap` on `None`/`Err`, out-of-range index and `usize` subtraction overflow becomes an `Err` value carrying the source's message.
- **Loops that may not end take a `fuel` bound.** This covers `run_program`, `ord`, `total_orbits`, `calc_ancestors`, `find_periods` and the `fourteen_b` search. Running out of fuel is an outcome of its own (`OutOfFuel`) that the contracts keep apart from errors.
- **Hash order becomes nondeterministic choice.** `HashMap`/`HashSet` iteration is a nondeterministic pick (`:|`). Contracts state only what holds for every iteration order.
- **State stays state.**
  - The interpreter, `Rational` and `BoundingBox` are classes whose methods update fields.
  - The moons of day twelve and the buffers of days seven and eight are arrays updated in place.
  - Hash maps and sets a loop fills are `map`/`set` variables.

Each loop is proved against a specification function. Lemmas put the properties the code promises on that function. They fall into four kinds:

- the intended result: a least common multiple, a unique prime factorisation, a count of valid passwords, a checksum, a visible set;
- invariants the loop keeps: momentum, tier ordering, justified distances;
- round trips between a value and its textual input;
- the repository's own test cases.

## Model

| member | source | states |
|---|---|---|
| Intcode.Addr | src/intcode.rs:61-63 | The `i32 as usize` cast: a non-negative value is itself; a negative one lands at 2^64 - 2^31 or above, so it is never a valid address |
| Intcode.AddrAgrees | src/intcode.rs:57-63 | On a memory shorter than 2^63 cells, the cast value is a valid index exactly when the cell value is, and then equals it; this is why the machine checks cell values directly |
| Intcode.Initial | src/intcode.rs:7-12 | A new machine has `ip` 0, the program as its memory unchanged, and no output |
| Intcode.Indirect | src/intcode.rs:57-59 | `deref(addr)` succeeds exactly when `addr` and `mem[addr]` are both in range, giving `mem[mem[addr]]`; otherwise it raises the index panic |
| Intcode.ExecBinarySpec | src/intcode.rs:29-41 | Opcodes 1 and 2 write the sum (product) of the two dereferenced operands to `mem[mem[ip+3]]` and advance `ip` by 4. No other cell changes and nothing is output. They fail, with the index panic, exactly when one of the six addresses involved is out of range |
| Intcode.ExecOutputSpec | src/intcode.rs:50-55 | Opcode 4 appends `mem[mem[mem[ip+1]]]` (one indirection more than `add`) to the output, advances `ip` by 2 and leaves memory alone. It fails exactly when one of those three addresses is out of range |
| Intcode.FatalOpcodes | src/intcode.rs:17-24 | Any opcode other than 1, 2, 4 and 99 stops the machine in one step: 3 with the unimplemented panic of `read_input`, every other with "bad input" |
| Intcode.HaltStops | src/intcode.rs:22 | At opcode 99 the run stops with the state unchanged, whatever the fuel |
| Intcode.ExecFrame | src/intcode.rs:17-21 | A step that succeeds keeps the memory size and only extends the output |
| Intcode.RunMoreFuel | src/intcode.rs:16-25 | Fuel is only a bound: once a run ends (halt or error), more fuel gives the same result |
| Intcode.RunFrame | src/intcode.rs:14-27 | A run that succeeds ends at a halt instruction, with the memory size kept and the earlier output as a prefix |
| Intcode.ExampleProgram | src/intcode.rs:80-88 | `[1,9,10,3,2,3,11,0,99,30,40,50]` halts and returns 3500 |
| Intcode.Machine.constructor | src/intcode.rs:7-12 | The new machine's state is `Initial(program)` |
| Intcode.Machine.Deref | src/intcode.rs:57-59 | Reads `mem[mem[addr]]` from the machine's memory with the bounds checks of `Indirect`; the state is unchanged |
| Intcode.Machine.Add | src/intcode.rs:29-34 | Updates the fields in place to the successor state of opcode 1, or reports the index panic |
| Intcode.Machine.Multiply | src/intcode.rs:36-41 | Updates the fields in place to the successor state of opcode 2, or reports the index panic |
| Intcode.Machine.Input | src/intcode.rs:43-48 | Always fails with the unimplemented panic and changes nothing |
| Intcode.Machine.Output | src/intcode.rs:50-55 | Updates the fields in place to the successor state of opcode 4, or reports the index panic |
| Intcode.Machine.Binary | src/intcode.rs:29-41 | Shared body of `add` and `multiply`: the fields become the successor state of the binary opcode, or the index panic is reported |
| Intcode.Machine.RunProgram | src/intcode.rs:14-27 | Resets `ip` to 0, then runs the fetch/dispatch loop. On a halt its state is the final state and its result is `mem[0]`; an error of any step is its error; running out of fuel is reported as such |
| Two.ParseTokens | src/two.rs:14-18 | Parsing the comma-separated tokens succeeds exactly when every token is a `usize`, and then yields their values in order; otherwise it is the parse panic |
| Two.ParseShown | src/two.rs:14-18 | Parsing the decimal renderings of a list of `usize` values gives the list back |
| Two.ReadShownProgram | src/two.rs:8-19 | Round trip: reading the comma-joined decimal text of a non-empty program gives the program |
| Two.Patch | src/two.rs:27-28 | Cells 1 and 2 hold the noun and verb; the length and every other cell are unchanged |
| Two.TwoA | src/two.rs:21-32 | A parse failure is the parse panic, and a program shorter than 3 cells is the index panic. Otherwise the result is what the program patched with 12 and 2 returns |
| Two.SearchFound | src/two.rs:43-58 | A successful search returns `100*noun+verb < 10000` for a pair whose run yields 19690720, and every pair before it in noun-major order does not |
| Two.SearchExhausted | src/two.rs:43-60 | When no pair yields 19690720 the search ends in the "no input yields value" panic |
| Two.TwoB | src/two.rs:34-61 | The parse and length failures of `TwoA`; otherwise the noun/verb search from (0,0), each pair run on a fresh patched copy |
| One.FuelForMass | src/one.rs:3-5 | For a non-negative mass the fuel is `mass / 3 - 2`; it is below any positive mass (so the iteration of `one_b` ends) and at most -2 for a non-positive one |
| One.FuelChain | src/one.rs:26-32 | The fuel chain of one mass is non-negative, 0 when the first fuel is not positive, and at least the first fuel otherwise |
| One.ParseMasses | src/one.rs:12-14 | Succeeds exactly when every line is an `i32`, giving one value per line in order; otherwise the parse panic |
| One.SumChains | src/one.rs:24-33 | The part-two total over all masses is non-negative |
| One.OneA | src/one.rs:7-17 | The sum of `FuelForMass` over the parsed masses, or the parse panic |
| One.OneB | src/one.rs:19-35 | The sum of the fuel chains over the parsed masses, which is non-negative, or the parse panic |
| Points.Dist | src/point.rs:10-12 | The Manhattan distance is 0 exactly at the origin and at least each coordinate's absolute value |
| Points.MovesAreSteps | src/point.rs:14-40 | `up`, `down`, `left` and `right` each change exactly one coordinate by one, all four lead to distinct grid neighbours |
| Points.AdjacentIsMove | src/point.rs:14-40 | `q` is a grid neighbour of `p` exactly when it is one of the four moves from `p` |
| Points.MovesInverse | src/point.rs:14-40 | `down` undoes `up` and `left` undoes `right`, both ways round |
| Points.StepDist | src/point.rs:10-40 | One move changes the distance by exactly one |
| Points.Eq | src/point.rs:43-47 | Equality is equality of both coordinates |
| Points.Cmp | src/point.rs:51-55 | `cmp` gives Less, Equal or Greater exactly as the distances compare |
| Points.CmpNotAntisymmetric | src/point.rs:51-55 | Distinct points at equal distance compare Equal |
| Points.CmpPreorder | src/point.rs:51-61 | The ordering is reflexive, transitive and flips when its arguments swap |
| Three.ParseSegmentSpec | src/three.rs:73-82 | A segment parses exactly when it is a letter from U, D, L, R followed by an `i32`. Another letter is the "bad input" panic, and a bad magnitude is the `unwrap` panic |
| Three.ParseShowSegment | src/three.rs:73-82 | Round trip: the text of a segment parses back to the segment |
| Three.MoveAdjacent | src/three.rs:37-63 | Each direction's move leads to a grid neighbour |
| Three.WalkCoords | src/three.rs:83-87 | `k` moves in one direction shift one coordinate by exactly `k` |
| Three.StepsSpec | src/three.rs:83-87 | The points a segment's inner loop inserts form a chain of grid moves from the current point; as a set they are the segment's path, and the chain ends `magnitude` moves away |
| Three.TraceSnoc | src/three.rs:83-87 | Tracing one more segment starts from where the previous ones ended and adds that segment's path |
| Three.TraceVisits | src/three.rs:65-90 | The wire's point set is exactly the points visited by one chain of grid moves from the origin, and the position carries over between segments |
| Three.WireShown | src/three.rs:65-90 | Round trip: reading the comma-joined text of a list of segments gives the set that tracing them visits |
| Three.Extend | src/three.rs:83-87 | One segment of `map_wire`'s loop moves the cursor to the segment's end and adds the segment's path to the set |
| Three.MapWire | src/three.rs:65-90 | Equals the wire reading `Wire`, including its panics |
| Three.Closest | src/three.rs:104-107 | Sorting the crossings by `cmp` and taking the first gives the smallest distance of any crossing, whatever order equal points end in |
| Three.ThreeA | src/three.rs:92-108 | Panics of either wire come first. With no crossing, `inter[0]` is the index panic; otherwise the result is the smallest distance of a point on both wires |
| Three.CrossingExample | src/three.rs:120-122 | The first test's two wires read back as their traces, and their nearest crossing is at distance 6 |
| Three.NearestCrossing | src/three.rs:122 | The traces of R8,U5,L5,D3 and U7,R6,D4,L4 cross nearest at distance 6 |
| Four.U8 | src/four.rs:14-19 | `as u8` keeps a value in 0..255 and is the identity on it |
| Four.ItoaDigits | src/four.rs:13-21 | For a non-negative `i`, the six entries are decimal digits and read together they are `i mod 1000000` |
| Four.RunLen | src/four.rs:43-67 | Run length at position `i` is between 1 and `i+1`, and at least 2 exactly when the digit repeats its predecessor |
| Four.IsIncr | src/four.rs:31-41 | True exactly when no digit is smaller than the one before |
| Four.HasRepeat | src/four.rs:69-88 | True exactly when two adjacent digits are equal |
| Four.HasRepeatWoTrips | src/four.rs:43-67 | True exactly when some maximal run of equal digits has length exactly 2, despite the early return and the reset at length 3 |
| Four.IsValidA | src/four.rs:23-25 | Non-decreasing and with an adjacent pair |
| Four.IsValidB | src/four.rs:27-29 | Non-decreasing and with a run of exactly two |
| Four.RuleExamples | src/four.rs:132-145 | The eight test passwords get the expected answers |
| Four.ExactPairIsPair | src/four.rs:23-29 | A password valid for part two is valid for part one |
| Four.ParseAll | src/four.rs:96-100 | Succeeds exactly when every token is an `i32`, giving their values in order; otherwise the parse panic |
| Four.ReadRange | src/four.rs:90-105 | `"lo-hi"` becomes the half-open range `lo..hi+1`; it fails exactly when a token does not parse or there are fewer than two |
| Four.ValidInStep | src/four.rs:112 | Extending the range by `n` adds `n` to the valid set exactly when `n` is valid |
| Four.CountValid | src/four.rs:112-113 | Counts exactly the valid numbers of the range |
| Four.FourA | src/four.rs:107-114 | The number of part-one-valid passwords in the inclusive interval, or the parse failure |
| Four.FourB | src/four.rs:116-123 | The number of part-two-valid passwords in the inclusive interval, or the parse failure |
| Fourteen.ParseAmtMat | src/fourteen.rs:12-18 | An `"N NAME"` item fails only with the index panic (fewer than two words) or the amount parse panic |
| Fourteen.ParseAmtMatShown | src/fourteen.rs:12-18 | `"N NAME"` parses to `(NAME, N)` |
| Fourteen.ParseLhs | src/fourteen.rs:20-29 | Parses each ", "-separated item in turn into the ingredient map, stopping at the first failure |
| Fourteen.ReadRules | src/fourteen.rs:31-49 | Builds the rule map line by line, keyed by the product, stopping at the first failure |
| Fourteen.RuleFires | src/fourteen.rs:51-57 | For a positive output the count is the ceiling of `req / produced`; a zero output is the division panic |
| Fourteen.RuleFiresLeast | src/fourteen.rs:51-57 | That ceiling is the least number of firings that covers the requirement |
| Fourteen.OrdOrdered | src/fourteen.rs:60-90 | Finished tiers hold no ORE, are pairwise disjoint, and cover FUEL's ingredients. Every ingredient of a material lies in a later tier, so a material is expanded only after everything that consumes it |
| Fourteen.OrdFromOrdered | src/fourteen.rs:67-88 | The loop keeps tiers disjoint, covering and expanded up to the current tier, hence `OrdOrdered` |
| Fourteen.OrdStopOrdered | src/fourteen.rs:82-84 | When the loop stops, dropping ORE from the tiers leaves them ordered |
| Fourteen.OrdStepReady | src/fourteen.rs:85-86 | Pushing the next tier keeps the tiers disjoint, covering and expanded up to the new last tier |
| Fourteen.OrdFixAgrees | src/fourteen.rs:82-84 | Whenever the loop as written ends, the corrected stop condition gives the same tiers |
| Fourteen.OrdEmptyTierLoops | src/fourteen.rs:82-86 | As written, a tier with nothing to expand makes the loop run out of any fuel |
| Fourteen.OrdAsWrittenHangs | src/fourteen.rs:82-86 | As written, `10 ORE => 1 FUEL` never stops |
| Fourteen.OrdFixedOreOnly | src/fourteen.rs:82-86 | With the corrected stop, `10 ORE => 1 FUEL` gives the single empty tier |
| Fourteen.Ord | src/fourteen.rs:60-90 | The imperative loop equals the corrected tier ordering, including its panics and fuel |
| Fourteen.ExpandTier | src/fourteen.rs:68-81 | One pass succeeds exactly when every non-ORE material of the tier has a rule. It gathers their ingredients into the next tier and removes them from every tier so far |
| Fourteen.RemoveEverywhere | src/fourteen.rs:76-78 | Removes one material from every tier and changes nothing else |
| Fourteen.RemoveAll | src/fourteen.rs:76-78 | Removing materials from every tier keeps the number of tiers and takes exactly those materials out of each one |
| Fourteen.GatherReqs | src/fourteen.rs:74-80 | Gathering a material's ingredients adds them to the next tier and removes them from every earlier tier |
| Fourteen.Seed | src/fourteen.rs:95-97 | Each FUEL ingredient starts with its amount times the FUEL amount, and nothing else is counted |
| Fourteen.AddScaled | src/fourteen.rs:104-111 | Every ingredient's count grows by its amount times the firings, missing keys are created at that value, and all other counts are unchanged |
| Fourteen.ProcessGrows | src/fourteen.rs:100-112 | Processing one material never drops a key nor lowers a count |
| Fourteen.AccumulateGrows | src/fourteen.rs:99-113 | Processing any sequence of materials never drops a key nor lowers a count |
| Fourteen.AccumulateStep | src/fourteen.rs:99-113 | Processing one more material continues from the earlier counts, and a panic stops the processing |
| Fourteen.CountedCoversSeed | src/fourteen.rs:94-113 | The final counts hold at least the seed amount of every FUEL ingredient |
| Fourteen.SeedCounts | src/fourteen.rs:94-97 | The seeding loop yields `Seed` |
| Fourteen.ProcessMaterial | src/fourteen.rs:101-111 | Processing one material, with the `unwrap` panics for a missing count or rule and the division panic of `rule_fires` |
| Fourteen.CountTier | src/fourteen.rs:100-112 | The materials of a tier, taken in some order that lists each once (all of them unless a panic cuts it short), are processed in that order |
| Fourteen.CountedDeps | src/fourteen.rs:93-115 | The counts are the seed followed by every tier's materials in the order the tiers were enumerated |
| Fourteen.OrderedUnrelated | src/fourteen.rs:60-90 | Within one tier of ordered tiers, no material is an ingredient of another |
| Fourteen.ProcessCommute | src/fourteen.rs:100-111 | Processing two materials, neither an ingredient of the other, gives the same counts in either order |
| Fourteen.AccumulateAppend | src/fourteen.rs:99-113 | Processing a concatenation is processing the first part and then the second from its counts; a panic in the first part is a panic of the whole |
| Fourteen.MoveLast | src/fourteen.rs:99-113 | A material unrelated to all the others may be processed first or last with the same counts |
| Fourteen.PermSame | src/fourteen.rs:100-112 | Any rearrangement of one tier's materials gives the same counts as a successful listing |
| Fourteen.OrdersSame | src/fourteen.rs:99-113 | Rearranging each tier's materials, tier by tier, gives the same counts |
| Fourteen.ListsMultiset | src/fourteen.rs:100 | Two complete listings of the same tier list the same materials, each once |
| Fourteen.PartialSucceeds | src/fourteen.rs:99-113 | If a complete listing of unrelated tiers succeeds, so does every listing that lists the earlier tiers completely and the last one in part |
| Fourteen.CountedOrderFree | src/fourteen.rs:93-115 | Over ordered tiers, any two complete listings both succeed or both panic, and agree on the counts when they succeed |
| Fourteen.OreOrderFree | src/fourteen.rs:93-115 | Over ordered tiers, the ORE count of the listing taken matches that of every complete listing, including whether it panics |
| Fourteen.OreOnlyNeedsTen | src/fourteen.rs:159-166 | Over the corrected tier ordering, `10 ORE => 1 FUEL` needs 10 ORE in whatever order the tiers are listed |
| Fourteen.OreAmount | src/fourteen.rs:165 | The ORE entry of those counts, or the `unwrap` panic when ORE is never counted. Over ordered tiers it is the value every complete listing gives |
| Fourteen.FourteenA | src/fourteen.rs:159-166 | Over the corrected tier ordering: rule panics and ordering outcomes propagate. Otherwise the result is the ORE needed for one FUEL, and it is the same for every complete listing of the tiers |
| Fourteen.Buys | src/fourteen.rs:178-183 | The FUEL a supply buys at a given cost, rounded down |
| Fourteen.Converge | src/fourteen.rs:177-191 | Every amount the search returns is affordable: its ORE cost is within the 10^12 supply |
| Fourteen.FourteenB | src/fourteen.rs:168-193 | Over the corrected tier ordering: an answer comes from successfully read and ordered rules, and its ORE cost is within the supply |
| Ten.Gcd | src/ten.rs:5-12 | The subtraction gcd of two positive numbers is positive |
| Ten.GcdDivides | src/ten.rs:5-12 | It divides both arguments |
| Ten.GcdGreatest | src/ten.rs:5-12 | Every common divisor divides it, so it is the greatest |
| Ten.Reduced | src/ten.rs:21-59 | The reduction fails exactly for 0/0 and never yields 0/0 |
| Ten.ReducedSpec | src/ten.rs:21-59 | The reduced pair times a positive scale is the original, signs are kept, and the pair is primitive (coprime, or a unit over 0) |
| Ten.ReducedNeg | src/ten.rs:21-59 | Negating both parts negates the result and keeps the scale |
| Ten.ReducedUnit | src/ten.rs:36-38 | With a part of absolute value 1 the pair is already reduced |
| Ten.ReducedExamples | src/ten.rs:211-231 | 2/4 becomes 1/2, 2/0 becomes 1/0, -2/0 becomes -1/0 and -1/5 stays, and 0/0 fails |
| Ten.Rational.constructor | src/ten.rs:85-88 | Stores numerator and denominator |
| Ten.Rational.Reduce | src/ten.rs:21-59 | Fails for 0/0 with the fields unchanged; otherwise the fields become the reduced pair |
| Ten.IsBetweenExamples | src/ten.rs:234-264 | The nine horizontal, vertical and diagonal test triples get the expected answers |
| Ten.WalkClear | src/ten.rs:95-117 | Walking from `p` towards an asteroid `q` on the grid answers true exactly when no asteroid lies on the lattice points strictly between them |
| Ten.SeesClear | src/ten.rs:82-118 | `can_see` between two in-grid asteroids answers that no asteroid blocks the lattice line |
| Ten.ClearIffUnblocked | src/ten.rs:82-118 | No asteroid on the lattice points between `p` and `q` is the same as no asteroid on the segment between them |
| Ten.SeesSymmetric | src/ten.rs:82-118 | For in-grid asteroids, `p` sees `q` exactly when `q` sees `p` |
| Ten.OffsetIsNotTarget | src/ten.rs:104 | Comparing the offset `check_point` with the absolute target `q` never triggers early for in-grid points |
| Ten.Sees | src/ten.rs:82-118 | `can_see` fails, with the `unwrap` of the 0/0 reduction, exactly when the two points coincide |
| Ten.CanSee | src/ten.rs:82-118 | The imperative walk equals `Sees` |
| Ten.Asteroids | src/ten.rs:128-139 | A point is an asteroid exactly when its row and column hold `#` |
| Ten.ReadMap | src/ten.rs:124-139 | Collects the asteroids, the first line's width and the number of lines |
| Ten.MapSymmetric | src/ten.rs:124-139 | On a map whose lines are no longer than the first, visibility is symmetric |
| Ten.RecordFrom | src/ten.rs:143-167 | The inner loop keeps the relation and tally invariants and relates `p` to every other asteroid |
| Ten.Survey | src/ten.rs:141-167 | The count of each asteroid is the number it is recorded as seeing; with symmetric visibility that is the set it sees |
| Ten.Largest | src/ten.rs:169-171 | The last of the sorted counts is the largest count |
| Ten.TenA | src/ten.rs:120-172 | The only failure is the subtraction panic on an empty count list, and an answer is at least 1. With symmetric visibility it succeeds exactly when some asteroid sees another, and the answer is the largest number of asteroids one asteroid sees |
| Ten.ThreeInARow | src/ten.rs:181-182 | For three asteroids where only the middle sees both others, the best station sees 2 |
| Ten.TenAExample | src/ten.rs:181-182 | On `.#.` three times, visibility is symmetric and the best station sees 2 |
| Ten.ColumnNeighbours | src/ten.rs:181-182 | In the column example, neighbouring asteroids see each other |
| Ten.ColumnEnds | src/ten.rs:181-182 | In the column example, the two end asteroids do not see each other |
| Twelve.ReadBody | src/twelve.rs:85-109 | Parsing one line equals `BodyOfLine` |
| Twelve.ReadLocations | src/twelve.rs:80-112 | Parsing all lines equals `Locations` |
| Twelve.LocationsSpec | src/twelve.rs:80-112 | Parsing succeeds exactly when every line does, giving one body per line in order with zero velocity |
| Twelve.SetAxisShown | src/twelve.rs:99-106 | An item `key=v` with key x, y or z sets exactly that coordinate |
| Twelve.ReadShown | src/twelve.rs:80-112 | Round trip: the text `<x=…, y=…, z=…>` of a position reads back as that body at rest |
| Twelve.ReadExample | src/twelve.rs:207-211 | `<x=-1, y=0, z=2>` reads as position [-1,0,2] at rest |
| Twelve.GravityStep | src/twelve.rs:42-56 | Every body's new velocity is its old one plus the unit pull of every other body on each axis |
| Twelve.PullOpposite | src/twelve.rs:46-52 | The pull of b on a is minus the pull of a on b, and equal positions pull nothing |
| Twelve.Attract | src/twelve.rs:45-53 | For one pair `i<j` the two velocities change by opposite pulls, and no other body changes |
| Twelve.AttractAll | src/twelve.rs:44-55 | Pulling body `i` against all later bodies completes its row of the pair loop |
| Twelve.Gravity | src/twelve.rs:42-56 | The in-place nested loop yields `GravityStep` of the old bodies |
| Twelve.GravityConserves | src/twelve.rs:42-56 | Gravity changes no position and keeps the velocity sum on every axis |
| Twelve.Drift | src/twelve.rs:58-64 | Each position gains its velocity; velocities stay |
| Twelve.Velocity | src/twelve.rs:58-64 | The in-place loop yields `Drift` of the old bodies |
| Twelve.DriftMomentum | src/twelve.rs:58-64 | Drift keeps the velocity sums |
| Twelve.StepConserves | src/twelve.rs:115-118 | One simulation step keeps the velocity sum on every axis |
| Twelve.StepsConserve | src/twelve.rs:114-120 | Any number of simulation steps keeps the velocity sum on every axis |
| Twelve.EnergyZero | src/twelve.rs:66-78 | Total energy is 0 exactly when every body is at the origin or at rest |
| Twelve.Energy | src/twelve.rs:66-78 | The loop computes the sum of potential times kinetic energy |
| Twelve.Advance | src/twelve.rs:115-118 | One round of gravity then velocity on the array |
| Twelve.Sim | src/twelve.rs:114-120 | The energy after `steps` rounds |
| Twelve.DivideOut | src/twelve.rs:22-29 | Divides out the largest power of `d` dividing `tmp`; when it divides at all, `d` is prime, and no smaller divisor appears |
| Twelve.PrimeFact | src/twelve.rs:17-40 | For `n >= 3` the terms have strictly increasing prime bases and positive exponents and multiply to `n`; `n < 3` reaches `unreachable!` |
| Twelve.FactorisationUnique | src/twelve.rs:17-40 | There is only one such factorisation |
| Twelve.PrimeFactExamples | src/twelve.rs:254-266 | 2802 is exactly 2·3·467 and 2028 exactly 2²·3·13² |
| Twelve.LcmUnique | src/twelve.rs:159-180 | A list has one least common multiple |
| Twelve.Merge | src/twelve.rs:164-172 | Merging a factorisation keeps every exponent at least as large and covers the new terms, each exponent coming from the old map or the new terms |
| Twelve.Product | src/twelve.rs:175-178 | The product of `base^exp` over the map |
| Twelve.HarmonyIsLcm | src/twelve.rs:159-180 | The product of maximum prime powers over the periods' factorisations is their least common multiple |
| Twelve.Harmony | src/twelve.rs:159-180 | Every period at least 3 gives their least common multiple; a smaller period reaches `unreachable!` |
| Twelve.HarmonyExample | src/twelve.rs:232-239 | The example's periods 18, 28 and 44 have 2772 as their one least common multiple |
| Twelve.AxisStateEqual | src/twelve.rs:122-129 | Two `to_axis` vectors are equal exactly when each body's position and velocity on the axis agree |
| Twelve.ToAxis | src/twelve.rs:122-129 | Interleaves position and velocity of each body on the axis |
| Twelve.CheckAxis | src/twelve.rs:143-150 | The first step count at which an axis returns to its start is its period |
| Twelve.PeriodUnique | src/twelve.rs:143-150 | An axis has only one period |
| Twelve.CheckAxes | src/twelve.rs:143-150 | A set period stays, and a newly found one is the period |
| Twelve.InitialAxes | src/twelve.rs:132-135 | The starting state of each axis |
| Twelve.KnownAll | src/twelve.rs:152-156 | Once all three periods are set they are the periods, each within the steps taken |
| Twelve.FindPeriods | src/twelve.rs:131-157 | Returns the three axis periods, or runs out of fuel only when some axis does not repeat within the fuel |
| Twelve.SimCycle | src/twelve.rs:159-180 | The least common multiple of the axis periods; `unreachable!` only from a period of 1 or 2 |
| Twelve.TwelveA | src/twelve.rs:182-188 | The energy after 1000 steps of the parsed bodies, or the parse failure |
| Twelve.TwelveB | src/twelve.rs:190-196 | The least common multiple of the parsed bodies' axis periods, or the parse failure |
| Six.OrbitsSpec | src/six.rs:21-38 | The lines parse exactly when each holds `)`, giving one orbit per line in order |
| Six.OrbitOfLineShown | src/six.rs:28-34 | Round trip: `A)B` reads as the orbit of B about A |
| Six.LinesToOrbits | src/six.rs:21-38 | The loop equals `Orbits` |
| Six.Pass | src/six.rs:49-59 | One pass keeps every recorded depth justified, and after it every orbit whose chain to COM is at most one longer than before is completed |
| Six.AllCompleted | src/six.rs:48 | Once every orbit reaches COM within the passes made, every orbit is completed |
| Six.TotalOrbits | src/six.rs:43-62 | The sum of depths, each the orbit count of its object. It certainly finishes when the orbits are distinct and every chain reaches COM within the fuel |
| Six.JustifiedUnique | src/six.rs:43-62 | When every object orbits one thing, the depths are unique |
| Six.ReachesUnique | src/six.rs:43-62 | When every object orbits one thing, an orbit reaches COM at only one depth |
| Six.DepthRoot | src/six.rs:50-53 | A direct satellite of COM has depth 1 |
| Six.DepthStep | src/six.rs:54-58 | Every other object is one deeper than the object it orbits |
| Six.TotalIsSumOfDepths | src/six.rs:61 | The total is the sum of the per-orbit depths |
| Six.ExampleTotal | src/six.rs:110-113 | The test's eleven orbits total 42 |
| Six.ExampleTerminates | src/six.rs:110-113 | The test's orbits are distinct and reach COM within 7 |
| Six.Parent | src/six.rs:91 | The lookup succeeds exactly when the object orbits something, giving that parent; otherwise it is the `unwrap` panic |
| Six.CalcAncestors | src/six.rs:88-103 | On success the walk up meets COM first after `n <= fuel` steps, and the map holds the objects walked past with their step less one. A missing parent before COM is the `unwrap` panic; fuel runs out only on a walk longer than the fuel that has not met COM |
| Six.AncestorKeys | src/six.rs:93-100 | An object is among the ancestors exactly when it lies on the first `n` steps of the walk up |
| Six.ComAtUnique | src/six.rs:93-100 | The step at which the walk first meets COM is unique |
| Six.AncestorsOmitCom | src/six.rs:93-100 | COM never appears among the ancestors |
| Six.AncestorDistances | src/six.rs:93-100 | On a walk without repeats, each ancestor maps to its distance less one |
| Six.ParentMap | src/six.rs:68-71 | The child-to-parent map of the orbits, later lines overriding earlier |
| Six.ParentPairs | src/six.rs:68-71 | One (satellite, parent) pair per orbit, in order |
| Six.NearestCommon | src/six.rs:77-85 | -1 exactly when the walks share nothing; otherwise both distances to a shared object nearest YOU |
| Six.MinTransfers | src/six.rs:66-86 | On success both YOU and SAN reach COM in the parent map. The result is -1 when their walks share no object, and otherwise the sum of both distances to a shared object nearest YOU |
| Six.SixA | src/six.rs:4-10 | The parse failure, or the total of justified depths over the parsed orbits, certain to be found when they are distinct and reach COM within the fuel |
| Six.SixB | src/six.rs:13-19 | The parse failure, or the `MinTransfers` answer over the parsed orbits |
| Seven.HeapsPerms | src/seven.rs:45-63 | For `1 <= n <= |a|` the result has `n!` entries, each a rearrangement of `a` touching only positions below `n`, and so is the final `a` |
| Seven.HeapsFirst | src/seven.rs:47-49 | The first entry is `a` as given, and `heaps(1, a)` is `[a]` |
| Seven.HeapsErrors | src/seven.rs:51-57 | `n = 0` is the `n-1` underflow, and `n > |a|` the swap index panic |
| Seven.HeapsFromPrefix | src/seven.rs:51-60 | The loop only appends to the results gathered so far |
| Seven.HeapsFromPerms | src/seven.rs:51-60 | The swap loop, run from any rearrangement of the input, adds `n!`-worth of rearrangements with positions from `n` on untouched |
| Seven.SwapIn | src/seven.rs:55-57 | The in-place swap, or the index panic leaving the array alone |
| Seven.HeapsIn | src/seven.rs:45-63 | The in-place recursive algorithm returns the results of `Heaps` and leaves the array in its final arrangement |
| Seven.HeapsThree | src/seven.rs:45-63 | Three elements give the six orderings in Heap's order |
| Eight.CountByteMultiset | src/eight.rs:3-5 | The count of `b` is its multiplicity |
| Eight.CountByte | src/eight.rs:3-5 | The count never exceeds the layer length |
| Eight.CountByteZero | src/eight.rs:3-5 | The count is 0 exactly when `b` does not occur |
| Eight.LayersAt | src/eight.rs:15-21 | Layer `k` is bytes `k*size` to `(k+1)*size`, whenever they are all present |
| Eight.Layers | src/eight.rs:15-21 | Every layer read has exactly the layer size |
| Eight.ReadExact | src/eight.rs:16-21 | Fills the buffer with the next bytes when enough are left; otherwise it consumes the rest and leaves the buffer alone |
| Eight.LayersExhausted | src/eight.rs:18-19 | A trailing partial layer is no layer |
| Eight.Fewest | src/eight.rs:23-27 | The first layer with strictly fewest '0' bytes |
| Eight.ImageCheck | src/eight.rs:7-33 | The '1' count times the '2' count of the first layer with fewest '0', over complete layers only |
| Eight.CheckExample | src/eight.rs:98-101 | `123456789012` at 3×2 gives 1 |
| Eight.Composite | src/eight.rs:50-54 | Layers stacked front to back give a full-size image |
| Eight.CompositePixel | src/eight.rs:50-54 | Each pixel is the first non-'2' value across the layers |
| Eight.FirstOpaqueSnoc | src/eight.rs:50-54 | Adding a layer at the back fills a pixel only where every earlier layer was transparent |
| Eight.CompositeSaturated | src/eight.rs:55-58 | Once no '2' remains, later layers change nothing, so the early exit keeps the result |
| Eight.Overlay | src/eight.rs:50-54 | The in-place pixel loop shows the layer through the transparent pixels only |
| Eight.Over | src/eight.rs:50-54 | The overlay keeps the image size |
| Eight.Render | src/eight.rs:42 | The rendered image always has `width*height` pixels |
| Eight.StackNext | src/eight.rs:43-58 | One read and overlay; when no complete layer is left the image is unchanged |
| Eight.RenderImage | src/eight.rs:35-62 | Stacks complete layers until they run out or nothing is transparent, giving `Render` |
| Eight.RenderFinished | src/eight.rs:43-58 | Stopping at input exhaustion or when nothing is transparent yields the full `Render` |
| Eight.RenderExample | src/eight.rs:104-110 | `0222112222120000` at 2×2 renders `0110` |
| Fifteen.BoundingBox.constructor | src/fifteen.rs:87-92 | The box starts at the origin and contains it |
| Fifteen.BoundingBox.Expand | src/fifteen.rs:18-31 | Each bound widens only when `p` lies outside it. Afterwards the box contains `p` and every point it contained before; a point already inside leaves it unchanged |
| Fifteen.Relax | src/fifteen.rs:147-156 | Keeps the keys and never raises a distance |
| Fifteen.NeighboursAdjacent | src/fifteen.rs:148 | The four directions visited are exactly the grid neighbours |
| Fifteen.Visit | src/fifteen.rs:147-156 | The in-place neighbour update yields `Relax` |
| Fifteen.Collect | src/fifteen.rs:159 | Lists every key once |
| Fifteen.LastClosest | src/fifteen.rs:160-162 | The last entry once sorted by decreasing distance has the smallest distance |
| Fifteen.Next | src/fifteen.rs:158-166 | `None` exactly for the empty map, otherwise a key of least distance |
| Fifteen.SettleNext | src/fifteen.rs:184-188 | Moves `cur` from distances to visited with its distance, relaxes its neighbours, and keeps the open cells split and every distance justified |
| Fifteen.Dikstras | src/fifteen.rs:168-205 | A missing origin is the `expect` panic. Otherwise every recorded distance is 0 at the origin or one more than a settled neighbour's; with no target all open cells are settled, and an open target is settled |
| Fifteen.SettledPaths | src/fifteen.rs:168-205 | Every finite settled distance is the length of a walk of grid moves from the origin through settled cells |
| Fifteen.PathWiden | src/fifteen.rs:168-205 | A walk through some cells is also a walk through any larger set of cells |
| Fifteen.FifteenA | src/fifteen.rs:207-215 | A closed or missing origin is the `expect` panic, and a missing target the `unwrap` panic. Otherwise it succeeds exactly when the target is open, and a finite answer is the length of a walk from the origin to the target through open cells |
| Fifteen.Farthest | src/fifteen.rs:223-225 | The first entry once sorted by decreasing distance holds the largest distance |
| Fifteen.FifteenB | src/fifteen.rs:217-225 | A missing target is the `unwrap` panic, and a closed one the `expect` panic. Otherwise it settles every open cell from the target and returns the largest settled distance |

## Left out

- I/O: `BufRead` line reading, `read_exact` on a reader, `println!` of intcode output and the image printing of `eight_b`. Parsers take strings, byte sequences or lists of lines instead. Intcode output is appended to a sequence.
- `src/main.rs`, `src/thirteen.rs`, `src/eleven.rs`, `src/nine.rs` and `src/five.rs`: command-line dispatch, terminal control, threads and channels. `src/eleven.rs:28` and `src/eleven.rs:37` compute `(direction - 1) % 4` on a `usize` that starts at 0, which underflows; that file is not part of this model.
- `amp_chain` and `seven_a` in `src/seven.rs`, and `explore_space` with its `Display` and `print_hborder` in `src/fifteen.rs`. They drive a channel-based machine API, returning send/receive endpoints, that `src/intcode.rs` does not define. `FifteenA` and `FifteenB` therefore take an explored space as a parameter, and the `Space` value omits its `bbox` field.
- Fixed-width arithmetic: `i32`, `u32`, `u64` and `usize` overflow is not modelled; integers are unbounded. Exceptions are the `usize` subtraction underflows that the code reaches (`two_b`, `heaps`, `ten_a`, `fourteen_b`), the `i32 as usize` address cast, `as u8` in `itoa`, and `usize::MAX` as the initial distance.
- Two: `read_program` yields `usize` cells while the machine holds `i32`, so the source does not type-check as written. The model uses integer cells throughout.
- Fuel: every loop that may not terminate carries a `fuel` bound. What happens beyond the bound is not modelled, only reported as `OutOfFuel`.
- Ten.Gcd: a zero argument loops forever in the source; the model requires positive arguments, which every caller guarantees.
- Ten.TenA: its characterisation holds under symmetric visibility, which `Ten.MapSymmetric` establishes for maps whose lines are no longer than the first.
- Ten: only the first `ten_a` test (the column of three) is evaluated; the 8 and 210 cases are not.
- Three: only the first `three_a` test (6) is evaluated; the 159 and 135 cases are not.
- Twelve: the `sim(…, 10) == 179` test and the period search on test input are not evaluated. The LCM example starts from the periods 18, 28 and 44.
- Fourteen: the tests with concrete rule sets (31, 165, 13312, 2, and the part-two answers) are not evaluated.
- Fourteen.FourteenA and Fourteen.FourteenB: both are built on the corrected `ord` (`Ord`, equal to `OrdSpec`), which also stops at an empty next tier. On rules where the loop as written never stops (see Findings), the source hangs, but the model answers.
- Fourteen.FourteenB: states only that the returned amount is affordable, not that it is the largest affordable amount.
- Fourteen.Converge: as for `FourteenB`, it states affordability only.
- Fourteen.ParseAmtMat: its contract lists only the failure modes; the success case is `ParseAmtMatShown`.
- Six: the `six_b` test (4) is not evaluated, and which equally near common ancestor `min_transfers` picks is left open, as hash order leaves it.
- Six.TotalOrbits: states that the result is a sum of justified depths and when it certainly succeeds. Uniqueness of those depths is the separate `Six.JustifiedUnique`.
- Seven.HeapsPerms: proves the `n!` count and that every entry is a rearrangement. That the 120 entries of `heaps(5, …)` are pairwise distinct is not proved; `Seven.HeapsThree` shows it for three elements.
- Fifteen.Dikstras: proves that every distance it records is realised by a walk and is 0 at the origin. That the distances are shortest is not proved.
- Eight.ImageCheck: requires a layer size between 1 and `usize::MAX - 1`. A size of 0 makes `read_exact` succeed forever, and the sentinel `usize::MAX` must exceed any zero count.
- Text: strings are sequences of characters, and byte offsets are not modelled. `split_at(1)` at `src/three.rs:73` splits at byte 1, so a segment whose first character takes several bytes in UTF-8 (such as `é5`) panics at the character boundary. `Three.ParseSegment` reports it as the "bad input" panic for `é` instead.
- Panic messages are kept where the source spells them out; formatting of `{:?}` arguments is not modelled.

## Findings

| source | as written | input that shows it | evidently intended | confidence | as-written member | corrected member |
|---|---|---|---|---|---|---|
| src/fourteen.rs:82-84 | `ord` stops only when the next tier is exactly {ORE}. A tier whose members need nothing but ORE, with ORE already gone, yields an empty next tier; the loop then pushes empty tiers forever | the rules `10 ORE => 1 FUEL`: tier 0 is {ORE}, which is never expanded, so every later tier is empty | stop as well when the next tier is empty, dropping ORE from the tiers, so that part one answers 10 | not executed | Fourteen.OrdAsWrittenHangs | Fourteen.OrdFixedOreOnly |
