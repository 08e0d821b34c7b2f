# Advent of Code 2020 kernels in Dafny

This project models the computational kernels of a set of Rust solutions to
the 2020 Advent of Code puzzles and proves properties of them. Each source
file becomes one module:

| module | source | what it models |
|---|---|---|
| `Outcomes` | (shared) | `Outcome` (a value or a panic) and `Option` |
| `RustInt` | (shared) | Rust's truncating `/` and `%` on signed integers |
| `Counting` | (shared) | the occurrences of a character in a string, and the size of a subset |
| `Sorting` | (shared) | sortedness of a sequence of integers, for the puzzles that sort first |
| `ReportRepair` | day1 | the two-pointer searches `check_sum_2` and `check_sum_3` on the sorted report |
| `PasswordPhilosophy` | day2 | the old and new password policies and the counts of valid entries |
| `TobogganTrajectory` | day3 | the tree count along a slope of a horizontally repeating map, for the five slopes |
| `BinaryBoarding` | day5 | the binary decoding of boarding passes, the seat ID and the largest ID |
| `CustomCustoms` | day6 | the 26 answer flags of a group, reset at blank lines, and the sum of the group counts |
| `HandyHaversacks` | day7 | the depth-first search over the bag graph, the count of colours that reach the target, and the recursive bag count |
| `HandheldHalting` | day8 | `decode` and `run`, which stops when an instruction is about to run a second time |
| `AdapterArray` | day10 | the sorted adapter chain, its difference counts and the backwards count of arrangements |
| `SeatingSystem` | day11 | the seat encoding, `neighbours`, one simultaneous round and the repeat-until-stable loop |
| `RainRisk` | day12 | the two ferries, `Ship` and `ShipNew`, their turns and moves, and `decode` |
| `ShuttleSearch` | day13 | `extended_gcd`, the earliest bus, offset normalisation and the pairwise Chinese Remainder reduction |
| `TicketTranslation` | day16 | the section flags of the note scan, range checks, the error rate, the candidate lists, the greedy assignment and the departure product |
| `ConwayCubes` | day17 | `len_reachable_active`, the `Conway` state with its bounding box, its construction and `iterate` |
| `OperationOrderAst` | day18 ast.rs | the expression tree and its `Debug` rendering |
| `OperationOrder` | day18 main.rs | `calculate`, the asserted example values and the running total |

Panics (`unwrap` on a missing value, an index out of range, an unsigned
underflow, a division by zero, an explicit `panic!`) are modelled as the
`Panic` outcome wherever the code can reach them. The program stops there,
so no state after a panic is specified. Loops in the source are methods
with invariants, each proved against a function that specifies it; the
properties the solutions rely on are lemmas about those functions.

## Model

| member | source | states |
|---|---|---|
| ReportRepair.Search2Sound | day1/src/main.rs:106-118 | a pair the two-pointer loop returns is two entries of the report that sum to the target; with the meeting guard its indices are strictly increasing |
| ReportRepair.Search2Complete | day1/src/main.rs:106-118 | on a sorted report, when entries at `p < q` inside the pointers sum to the target, the loop returns a pair at two distinct indices (the head never passes `p`, the tail never passes `q`) |
| ReportRepair.CheckSum2 | day1/src/main.rs:99-119 | panics on an empty slice (`len - 1` underflows); otherwise returns the values of the pair the search finds, or `(-1, -1)` |
| ReportRepair.CheckSum2Meaning | day1/src/main.rs:99-119 | soundness of `check_sum_2` and, on a sorted report holding two entries at distinct indices with that sum, that a pair at distinct indices is found |
| ReportRepair.ExampleTwo | day1/src/main.rs:16-25 | on the example report the pair is 299 and 1721, with product 514579 |
| ReportRepair.SameEntryTwice | day1/src/main.rs:106-118 | on `[1, 1010, 5000]` no two entries sum to 2020, yet the loop as written reports 1010 twice; with the meeting guard it reports nothing |
| ReportRepair.Search3Sound | day1/src/main.rs:72-93 | a pair the inner loop of `check_sum_3` returns skips index `k` and sums to the remaining target |
| ReportRepair.Search3Complete | day1/src/main.rs:72-93 | on a sorted report, entries at `p < q` (neither `k`) inside the pointers summing to the remaining target make the inner loop succeed at distinct indices |
| ReportRepair.Find3Sound | day1/src/main.rs:67-96 | a triple found is three entries summing to the target, the fixed one at an index different from the two others |
| ReportRepair.Find3Complete | day1/src/main.rs:67-96 | on a sorted report with three entries at distinct indices summing to the target, the outer loop finds a triple (at three distinct indices with the guard) |
| ReportRepair.Find3Reaches | day1/src/main.rs:67-96 | the outer loop reaches the fixed entry of a known triple unless it stops earlier on another triple |
| ReportRepair.CheckSum3 | day1/src/main.rs:60-97 | returns the values of the first triple the outer loop finds, or `(-1, -1, -1)` |
| ReportRepair.ExampleThree | day1/src/main.rs:34 | on the example report the triple is 366, 675 and 979, with product 241861950 |
| ReportRepair.SameEntryTwiceInTriple | day1/src/main.rs:72-93 | on `[10, 1005, 3000]` no three entries sum to 2020, yet the loop as written reports 1005 twice beside 10; with the guard nothing is found |
| AdapterArray.SortedEnds | day10/src/main.rs:8-13 | after the sort the last value is the largest rating (or the outlet) and, with no negative rating, the first is the outlet 0 |
| AdapterArray.Setup | day10/src/main.rs:8-14 | the chain is sorted, holds the outlet and every rating, and ends with the device three jolts above the largest of them |
| AdapterArray.DiffCountsPartition | day10/src/main.rs:19-27 | when no difference panics, every difference of the chain is counted exactly once among the 1s, 2s and 3s |
| AdapterArray.CountDifferences | day10/src/main.rs:19-27 | the loop panics exactly when some consecutive difference is outside 1..3, and otherwise returns the numbers of 1-jolt and 3-jolt differences |
| AdapterArray.WaysPositive | day10/src/main.rs:31-57 | when every step of the chain is 1 to 3 jolts, every adapter has at least one arrangement to the device |
| AdapterArray.PushAt | day10/src/main.rs:38-55 | one guarded addition changes only the entry `i - d`, by `dp[i]`, and only when that adapter can reach adapter `i` |
| AdapterArray.PropagateAt | day10/src/main.rs:34-57 | propagating adapter `i` finalises its followers' contributions to each earlier entry |
| AdapterArray.PropagateStep | day10/src/main.rs:34-57 | the three guarded additions of one turn, in the order `i - 3`, `i - 2`, `i - 1`, turn the table before the turn into the table after it |
| AdapterArray.Arrangements | day10/src/main.rs:31-58 | after the backwards pass every `dp[j]` is the number of ways from adapter `j` to the device, each step moving one to three places forward and at most three jolts up |
| AdapterArray.PushBack | day10/src/main.rs:38-55 | one `dp[i - d] += dp[i]` is done exactly when `i - d` is an index and adapter `i - d` can reach adapter `i` |
| SeatingSystem.Encode | day11/src/main.rs:121-125 | `.` and only `.` reads as floor, `L` and only `L` as an empty seat, anything else as occupied |
| SeatingSystem.EncodeMap | day11/src/main.rs:119-127 | the grid has one row per line, of the line's length, with floor exactly where the line has `.`, and only the three encodings |
| SeatingSystem.Neighbours | day11/src/main.rs:99-115 | `neighbours` counts the occupied cells among the eight around `(i, j)` that lie inside the `n` rows and `m` columns, the cell itself excluded |
| SeatingSystem.CountFromBound | day11/src/main.rs:101-113 | the cells still to visit in the nested offset loops can add at most their number, the centre excluded |
| SeatingSystem.NeighbourBound | day11/src/main.rs:99-115 | a cell has at most eight occupied neighbours |
| SeatingSystem.NeighbourCountIgnoresCentre | day11/src/main.rs:103 | the value of the cell itself does not affect its own count |
| SeatingSystem.NextGridKeeps | day11/src/main.rs:134-153 | a round keeps the shape of the grid (and its rectangularity), never changes floor, and keeps every cell one of the three encodings |
| SeatingSystem.DiffsZero | day11/src/main.rs:140-144 | no position differs exactly when two rows are equal |
| SeatingSystem.GridDiffsZero | day11/src/main.rs:155 | no cell differs exactly when two grids are equal |
| SeatingSystem.NextCellIgnoresOwnWrite | day11/src/main.rs:133-137 | deciding a cell on the copy taken before the round means an earlier write to that cell cannot change its count |
| SeatingSystem.RoundRow | day11/src/main.rs:135-151 | one row of a round is the new row decided on the grid before the round; `changes` counts the cells of the row that changed and `occupied` its occupied seats afterwards |
| SeatingSystem.Round | day11/src/main.rs:131-153 | one round turns the grid into the next grid, every cell decided on the copy taken before it; `changes` counts the cells that changed and `occupied` the occupied seats after it |
| SeatingSystem.StableIffNoChanges | day11/src/main.rs:155-158 | a round counts no change exactly when it leaves the grid as it was |
| SeatingSystem.RoundsRectangular | day11/src/main.rs:130-159 | every round keeps the grid rectangular |
| SeatingSystem.StableStays | day11/src/main.rs:130-159 | once a round changes nothing, every later grid is the same |
| SeatingSystem.Settle | day11/src/main.rs:130-159 | the loop of `main` stops at the first round that changes nothing and reports that grid's occupied seats; with no such round among those `fuel` allows it reports none |
| SeatingSystem.ExampleBlockFills | day11/src/main.rs:134-141 | a block of four empty seats fills up in one round |
| SeatingSystem.ExampleBlockStable | day11/src/main.rs:142-147 | a block of four occupied seats, each seeing three neighbours, stays as it is with four seats occupied |
| RainRisk.QuarterProperties | day12/src/main.rs:100-137 | a rotation of the waypoint keeps its Manhattan length, and four quarter turns are the identity |
| RainRisk.TurnsAreRotations | day12/src/main.rs:100-137 | `L a` turns the waypoint `a/90` quarter turns counter-clockwise and `R a` the same clockwise, for `a` of 90, 180 or 270; any other amount panics |
| RainRisk.TurnsCancel | day12/src/main.rs:100-137 | turning right undoes turning left by the same amount, and both keep the waypoint's Manhattan length |
| RainRisk.EastArmUnreachable | day12/src/main.rs:63-65 | the truncating `dir % 360` is never -360, so that pattern of the east arm is dead |
| RainRisk.FaceIsHeading | day12/src/main.rs:62-80 | for a heading that is a multiple of 90 degrees, negative ones included, `F` steps along east turned `dir/90` quarter turns counter-clockwise; any other heading panics |
| RainRisk.RemInQuarters | day12/src/main.rs:63 | the truncating `dir % 360` leaves the same remainder modulo 90 as `dir` |
| RainRisk.StepKeepsHeading | day12/src/main.rs:58-141 | from a heading that is a multiple of 90 degrees an instruction keeps it one, and it panics exactly when its letter is unknown or it turns by something other than 90, 180 or 270 |
| RainRisk.TurnHeading | day12/src/main.rs:100-120 | turning by 90, 180 or 270 keeps a heading a multiple of 90 |
| RainRisk.ForwardMoves | day12/src/main.rs:62-83 | `F` moves the self-steering ferry `amount` units along its heading and the other ferry `amount` times its waypoint offset |
| RainRisk.Ship.constructor | day12/src/main.rs:144-147 | the ferry starts at the origin facing east |
| RainRisk.ShipNew.constructor | day12/src/main.rs:148-151 | the waypoint starts 10 east and 1 north of the ferry at the origin |
| RainRisk.Decode | day12/src/main.rs:58-141 | `decode` goes through exactly when the reference step does not panic, and then leaves both ferries in the states the step gives |
| RainRisk.JourneyKeepsHeading | day12/src/main.rs:153-155 | along any route that has not panicked the heading stays a multiple of 90 degrees, so the `panic!` of the `F` arm never fires |
| RainRisk.Navigate | day12/src/main.rs:142-158 | `main` panics when the route does, and otherwise reports the Manhattan distances of both ferries from the origin |
| RainRisk.JourneyPanicSticks | day12/src/main.rs:153-155 | a panic on a prefix of the route is a panic of the whole route |
| RainRisk.ExampleRoute | day12/src/main.rs:20-36 | the example route ends at east 17, south 8 (distance 25) for the self-steering ferry and at east 214, south 72 (distance 286) with the waypoint |
| ShuttleSearch.EgcdLoopBezout | day13/src/main.rs:125-136 | the loop keeps `old_r = a*old_s + b*old_t`, so the coefficients it ends with are Bezout coefficients of the remainder it ends with |
| ShuttleSearch.EgcdLoopDivides | day13/src/main.rs:125-136 | the remainder the loop ends with divides both of the remainders it started from, and is non-negative when they are |
| ShuttleSearch.ExtGcdCorrect | day13/src/main.rs:120-139 | `extended_gcd(a, b)` returns a greatest common divisor of `a` and `b` with Bezout coefficients for it, non-negative for non-negative inputs |
| ShuttleSearch.ExtendedGcd | day13/src/main.rs:120-139 | the loop with truncating `/` computes exactly that triple: a gcd of `a` and `b` and coefficients with `a*x + b*y = g` |
| ShuttleSearch.WaitRange | day13/src/main.rs:152 | for a non-negative departure the wait `bus - departure % bus` lies between 1 and `bus` |
| ShuttleSearch.EarliestBus | day13/src/main.rs:150-158 | the scan panics exactly when some bus id is 0 (`% 0`), and otherwise ends with the `(min, min_bus)` pair of the reference choice |
| ShuttleSearch.ChooseBusMinimal | day13/src/main.rs:150-158 | the chosen wait is at most `departure` and at most every bus's wait; with no bus chosen it is `departure` |
| ShuttleSearch.ChooseBusNone | day13/src/main.rs:150-158 | no bus is chosen (`-1`) exactly when every wait exceeds `departure` |
| ShuttleSearch.ChooseBusLast | day13/src/main.rs:153-156 | a chosen bus is in the list with the chosen wait, and every later bus waits strictly longer (`<=` lets ties go to the later bus) |
| ShuttleSearch.ChooseBusIsEarliest | day13/src/main.rs:150-161 | the chosen bus has the least wait of all buses, no later bus ties with it, and no bus is chosen exactly when every wait exceeds `departure` |
| ShuttleSearch.ChooseBusTieGoesToLarger | day13/src/main.rs:147-156 | on the sorted list a bus tying with the chosen wait is no larger than the chosen bus |
| ShuttleSearch.ExamplePartOne | day13/src/main.rs:16-46 | at 939 bus 59 leaves first, after 5 minutes; the answer is 295 |
| ShuttleSearch.OffsetCorrect | day13/src/main.rs:169-172 | the normalised offset of the bus at position `i` lies in `[0, bus)` and is congruent to `-i` modulo the bus |
| ShuttleSearch.Offsets | day13/src/main.rs:166-176 | every congruence built from the schedule has a positive modulus |
| ShuttleSearch.PositionsValid | day13/src/main.rs:167-168 | the positions are increasing indices of listed buses |
| ShuttleSearch.PositionsComplete | day13/src/main.rs:167-168 | every listed bus has its position among the positions |
| ShuttleSearch.OffsetsAtPositions | day13/src/main.rs:166-176 | the `k`-th congruence is the offset and id of the `k`-th listed bus, the positions being exactly the listed buses in order |
| ShuttleSearch.NormaliseOffsets | day13/src/main.rs:166-176 | the loop pushes exactly the congruences of the listed buses, in order of position |
| ShuttleSearch.Combine | day13/src/main.rs:186-197 | one combination has the product of the two moduli as its modulus |
| ShuttleSearch.Reduce | day13/src/main.rs:183-203 | the reduction of a non-empty queue leaves exactly one congruence |
| ShuttleSearch.BezoutOneIsCoprime | day13/src/main.rs:188 | numbers with Bezout coefficients for 1 are coprime |
| ShuttleSearch.CoprimeProduct | day13/src/main.rs:197 | a modulus coprime to two factors is coprime to their product, so combined moduli stay pairwise coprime |
| ShuttleSearch.CombineSound | day13/src/main.rs:186-194 | for coprime moduli the combined residue lies in `[0, n1*n2)` and solves both congruences |
| ShuttleSearch.CombineComplete | day13/src/main.rs:186-194 | every common solution of the two congruences solves the combined one |
| ShuttleSearch.CombineStepShape | day13/src/main.rs:186-200 | one step keeps the moduli positive, the residues reduced and the moduli pairwise coprime |
| ShuttleSearch.CombineStepProduct | day13/src/main.rs:186-200 | one step keeps the product of the moduli |
| ShuttleSearch.CombineStepSolutions | day13/src/main.rs:186-200 | one step keeps exactly the same solutions |
| ShuttleSearch.ReduceSolves | day13/src/main.rs:183-203 | the Chinese Remainder Theorem: the last congruence has the product of the moduli as modulus, a residue in range that solves every congruence, and every solution is congruent to it |
| ShuttleSearch.ReduceCongruences | day13/src/main.rs:183-205 | the nested loops with their `len/2` rounds end with the reference reduction's residue, and panic on an empty queue (`new_buses[0]`) |
| ShuttleSearch.OffsetsSatisfied | day13/src/main.rs:163-176 | a timestamp solves the congruences exactly when every listed bus leaves its position's number of minutes after it |
| ShuttleSearch.OffsetsShape | day13/src/main.rs:166-176 | for pairwise coprime ids the congruences have reduced residues and pairwise coprime moduli |
| ShuttleSearch.LeastInClass | day13/src/main.rs:191-194 | a residue in `[0, n)` is the least non-negative member of its class |
| ShuttleSearch.EarliestTimestamp | day13/src/main.rs:163-205 | for pairwise coprime ids the answer is the earliest non-negative timestamp at which every listed bus leaves at its offset |
| ShuttleSearch.EarliestAlignedTimestamp | day13/src/main.rs:163-205 | part two prints the residue the reduction of the schedule's congruences leaves, and panics on a schedule with no bus |
| ShuttleSearch.ExamplePartTwo | day13/src/main.rs:105 | the schedule `17,x,13,19` first lines up at timestamp 3417 |
| ShuttleSearch.ModProductOffsets | day13/src/main.rs:166-176 | the moduli of the congruences multiply to the product of the listed bus ids |
| ShuttleSearch.ScheduleAnswer | day13/src/main.rs:163-205 | for pairwise coprime ids, a timestamp below the product of the ids at which every listed bus leaves at its offset is the residue the reduction ends with |
| ShuttleSearch.ExampleLongSchedule | day13/src/main.rs:60-72 | the schedule `7,13,x,x,59,x,31,19` first lines up at timestamp 1068781 |
| ShuttleSearch.ExampleFourBuses | day13/src/main.rs:106 | the schedule `67,7,59,61` first lines up at timestamp 754018 |
| ShuttleSearch.ExampleGapSecond | day13/src/main.rs:107 | the schedule `67,x,7,59,61` first lines up at timestamp 779210 |
| ShuttleSearch.ExampleGapThird | day13/src/main.rs:108 | the schedule `67,7,x,59,61` first lines up at timestamp 1261476 |
| ShuttleSearch.ExampleLargeIds | day13/src/main.rs:109 | the schedule `1789,37,47,1889` first lines up at timestamp 1202161486 |
| TicketTranslation.NoRuleAccepts | day16/src/main.rs:137-144 | the flag computed by `all(!v)` over the rules is set exactly when no rule accepts the value |
| TicketTranslation.InvalidValuesMeaning | day16/src/main.rs:136-152 | a value is collected as invalid exactly when it is on the ticket and no rule accepts it, and nothing is collected exactly when the ticket is kept |
| TicketTranslation.CheckTicket | day16/src/main.rs:133-155 | the per-value loop collects exactly the ticket's values that no rule accepts, and keeps the ticket exactly when every value is accepted |
| TicketTranslation.Nearby | day16/src/main.rs:133-155 | a nearby ticket appends its invalid values to the collected ones and is appended to the kept tickets only when all its values are valid |
| TicketTranslation.StepKeepsOrder | day16/src/main.rs:107-127 | after any line every name of `rule_order` is a key of the rule map and every key is in `rule_order` |
| TicketTranslation.ScanKeepsOrder | day16/src/main.rs:90-156 | that correspondence between `rule_order` and the rule map holds after the whole scan |
| TicketTranslation.ScanNotes | day16/src/main.rs:90-156 | the loop over the lines, with its three mode flags, reaches the state of the line-by-line scan, or panics where it does |
| TicketTranslation.ScanRuleLines | day16/src/main.rs:107-127 | while rules are read, rule lines only insert their ranges into the map and append their names to `rule_order`, in order |
| TicketTranslation.ScanNearbyLines | day16/src/main.rs:133-155 | in the nearby section the lines add all their invalid values, in order, and keep exactly the valid tickets, in order |
| TicketTranslation.ScanHead | day16/src/main.rs:93-132 | rules, a blank line, the own ticket under its header and the nearby header leave the rules read, the own ticket kept and the scan in the nearby mode |
| TicketTranslation.MiddleLines | day16/src/main.rs:93-132 | the blank line ends the rules, the header switches to the own ticket, which is kept unchecked, and the second header to the nearby tickets |
| TicketTranslation.ScanDocument | day16/src/main.rs:90-159 | on a whole document the rules are those of the rule lines, the own ticket comes first whatever its values, and the nearby tickets give the invalid values and the other kept tickets |
| TicketTranslation.ExampleAccepts | day16/src/main.rs:27-29 | the example rules accept exactly 1-3, 5-11 and 13-50 |
| TicketTranslation.ExampleTicket1 | day16/src/main.rs:35 | `7,3,47` has no invalid value and is kept |
| TicketTranslation.ExampleTicket2 | day16/src/main.rs:36 | `40,4,50` has the invalid value 4 and is dropped |
| TicketTranslation.ExampleTicket3 | day16/src/main.rs:37 | `55,2,20` has the invalid value 55 and is dropped |
| TicketTranslation.ExampleTicket4 | day16/src/main.rs:38 | `38,6,12` has the invalid value 12 and is dropped |
| TicketTranslation.ExampleErrorRate | day16/src/main.rs:40 | the invalid values are 4, 55 and 12, only `7,3,47` is kept, and the error rate is 71 |
| TicketTranslation.ExampleNearby | day16/src/main.rs:34-40 | the four example nearby tickets give the invalid values 4, 55, 12 and keep only the first ticket |
| TicketTranslation.Columns | day16/src/main.rs:162-172 | `values` has one entry per position of the own ticket holding that position's values on the other tickets, in order; it panics on no tickets or when a later ticket is longer than the own one |
| TicketTranslation.CandidatesMeaning | day16/src/main.rs:177-190 | a name is a candidate of a column exactly when it is in `rule_order` and its rule accepts every value of the column |
| TicketTranslation.CandidatesInOrder | day16/src/main.rs:177-190 | the candidates keep the order of `rule_order` |
| TicketTranslation.Candidates | day16/src/main.rs:175-192 | `rule_idx` holds, for every position, exactly the candidate rules of its column |
| TicketTranslation.FirstFreeMeaning | day16/src/main.rs:204-210 | the name found is the first of the position's candidates not yet assigned, or every candidate is assigned and the empty name is used |
| TicketTranslation.Greedy | day16/src/main.rs:202-212 | every name assigned goes to one of the positions handled |
| TicketTranslation.Assign | day16/src/main.rs:202-212 | the loop over the sorted positions builds the greedy assignment |
| TicketTranslation.GreedyFills | day16/src/main.rs:194-214 | when the `k`-th position handled has more than `k` distinct candidates, every position gets a name of its own, and each name goes to a position that lists it |
| TicketTranslation.ProductRemove | day16/src/main.rs:217-223 | the product over the fields does not depend on the order in which the map is visited |
| TicketTranslation.NoDeparture | day16/src/main.rs:220-222 | fields whose names do not contain `departure` leave the product at 1 |
| TicketTranslation.DepartureProduct | day16/src/main.rs:217-223 | the loop multiplies together the own ticket's values at the positions of the `departure` fields |
| TicketTranslation.FieldProduct | day16/src/main.rs:162-224 | part two panics exactly when there is no ticket, a ticket is too long, or the position and assignment counts differ from the rule count; otherwise it is the product of the departure fields under the greedy assignment |
| TicketTranslation.CandidatesOfThree | day16/src/main.rs:177-190 | with three rules the candidates are the accepting ones, in rule order |
| TicketTranslation.ExampleCandidates | day16/src/main.rs:52-62 | in the second example the columns have the candidates `row`; `class,row`; `class,row,seat` |
| TicketTranslation.ExampleAssignment | day16/src/main.rs:64 | the greedy assignment then gives `row` the first position, `class` the second and `seat` the third |
| ConwayCubes.LenReachableActive | day17/src/main.rs:117-134 | the three nested offset loops count exactly the active cubes among the 26 around the point |
| ConwayCubes.NeighbourBound | day17/src/main.rs:119-131 | the neighbour count is at most 26 |
| ConwayCubes.CountIgnoresSelf | day17/src/main.rs:127 | whether the point itself is active never changes its count: the centre is skipped |
| ConwayCubes.FarHasNoNeighbours | day17/src/main.rs:155-158 | a point outside the bounds widened by one has no active neighbour, so the scan of the widened box misses no birth |
| ConwayCubes.Extend | day17/src/main.rs:185-202 | the bound updates for an added point never shrink the box and take the point in |
| ConwayCubes.ExtendEncloses | day17/src/main.rs:183-203 | a box enclosing the active set, extended by a point, encloses the set with the point added |
| ConwayCubes.Conway.constructor | day17/src/main.rs:236-256 | the initial bounds come from the grid's size and a cube is active exactly at `(row, column, 0)` of each `#`; the bounds enclose the cubes when no row is longer than the first |
| ConwayCubes.Conway.Scan | day17/src/main.rs:152-177 | judged on the set before the step, `to_add` holds exactly the points of the widened box that are born and `to_remove` exactly those that die |
| ConwayCubes.Conway.RemoveAll | day17/src/main.rs:179-181 | the active set loses exactly the listed points and the bounds stay |
| ConwayCubes.Conway.Widen | day17/src/main.rs:185-202 | the bounds become the old bounds extended by the point and the active set stays |
| ConwayCubes.Conway.AddAll | day17/src/main.rs:183-203 | the active set gains exactly the listed points, the bounds only grow and still enclose every active cube |
| ConwayCubes.Conway.Iterate | day17/src/main.rs:151-206 | every cube, inside the box or not, follows the life rule on the set before the step (simultaneous update); the bounds only grow and keep enclosing the active cubes |
| OperationOrderAst.OpcodeText | day18/src/ast.rs:24-32 | `Add` renders as `+` and `Mul` as `*` |
| OperationOrderAst.NatTextRoundTrip | day18/src/ast.rs:12 | the decimal text of a literal reads back as the literal |
| OperationOrderAst.Render | day18/src/ast.rs:8-16 | the `Debug` text is never empty, and it starts with `(` and ends with `)` exactly when the tree is an `Op` node, so a node's text can be told from a leaf's |
| OperationOrderAst.LeafRendersAsLiteral | day18/src/ast.rs:12 | a `Number` leaf renders as its integer literal, which reads back as the number |
| OperationOrderAst.OpRendering | day18/src/ast.rs:13 | an `Op` node renders as `(`, the left operand, a space, the operator, a space, the right operand and `)` |
| OperationOrderAst.LeavesAreOpsPlusOne | day18/src/ast.rs:3-6 | every node has exactly two sub-expressions, so a tree has one more leaf than it has nodes |
| OperationOrderAst.RenderParenCount | day18/src/ast.rs:8-16 | the rendering holds exactly one `(` and one `)` per `Op` node |
| OperationOrderAst.RenderBalanced | day18/src/ast.rs:8-16 | the rendering's parentheses are balanced: no prefix closes more than it opened and the whole text closes all it opened |
| OperationOrder.LeafValue | day18/src/main.rs:51 | `n as u128` is `n` for a non-negative literal and wraps a negative one to `n + 2^128` |
| OperationOrder.Calculate | day18/src/main.rs:49-59 | `calculate` folds the tree bottom-up; since neither `+` nor `*` makes a positive operand smaller, a tree whose literals are all positive evaluates to at least its largest literal |
| OperationOrder.CalculateLeaf | day18/src/main.rs:51 | a non-negative `i32` literal evaluates to itself |
| OperationOrder.CalculateOp | day18/src/main.rs:52-56 | an `Add` node evaluates to the sum and a `Mul` node to the product of its children's values |
| OperationOrder.LeftChainIsLeftToRight | day18/src/main.rs:49-59 | a left-leaning chain of operators evaluates strictly left to right, with no precedence between `+` and `*` |
| OperationOrder.Example1Value | day18/src/main.rs:61-64 | `1 + 2 * 3 + 4 * 5 + 6` evaluates to 71 |
| OperationOrder.Example2Value | day18/src/main.rs:66-69 | `1 + (2 * 3) + (4 * (5 + 6))` evaluates to 51 |
| OperationOrder.Example3Value | day18/src/main.rs:71-74 | `2 * 3 + (4 * 5)` evaluates to 26 |
| OperationOrder.Example4Value | day18/src/main.rs:76-79 | `5 + (8 * 3 + 9 + 3 * 4 * 3)` evaluates to 437 |
| OperationOrder.Example5Value | day18/src/main.rs:81-84 | `5 * 9 * (7 * 3 * 3 + 9 * 3 + (8 + 6 * 4))` evaluates to 12240 |
| OperationOrder.Example6Value | day18/src/main.rs:86-89 | `((2 + 4 * 9) * (6 + 9 * 8 + 6) + 6) + 2 + 4 * 2` evaluates to 13632 |
| OperationOrder.ExampleRendering | day18/src/ast.rs:8-16 | the tree of `2 * 3 + (4 * 5)` renders as `((2 * 3) + (4 * 5))` |
| OperationOrder.Total | day18/src/main.rs:91-101 | the loop over the lines adds up the values of all the trees |
| OperationOrder.SumValuesConcat | day18/src/main.rs:91-101 | the total of two batches of lines is the sum of their totals |
| PasswordPhilosophy.OccurrencesIsMultiplicity | day2/src/main.rs:63-68 | the loop's count of the policy letter is its multiplicity in the password |
| PasswordPhilosophy.Check | day2/src/main.rs:62-71 | the old policy holds exactly when the letter's multiplicity in the password lies between `min` and `max`, both inclusive |
| PasswordPhilosophy.CheckNew | day2/src/main.rs:73-79 | panics exactly when a position (`min` or `max`) is 0 (the `- 1` underflows) or past the end of the password (`unwrap` on `nth`) |
| PasswordPhilosophy.CheckNewMeaning | day2/src/main.rs:73-79 | with both positions in range the new policy holds exactly when the letter occurs once among the two positions; equal positions never pass |
| PasswordPhilosophy.CountOld | day2/src/main.rs:86-94 | at most one count per entry |
| PasswordPhilosophy.CountNew | day2/src/main.rs:86-98 | the count panics exactly when some entry's new-policy test panics, and otherwise counts at most one per entry |
| PasswordPhilosophy.CountValid | day2/src/main.rs:82-106 | the loop of `main` returns both counts, and panics exactly when some entry's new-policy test does |
| PasswordPhilosophy.PanicPersists | day2/src/main.rs:86-103 | a panic on a prefix of the lines is a panic of the whole run |
| PasswordPhilosophy.UnmatchedLinePanics | day2/src/main.rs:40-55 | a line the pattern does not match parses to the starting values (positions 0, letter `'0'`, password `"0"`); that entry fails the old policy, and any run that reaches it panics at `min - 1` in `check_new` |
| Counting.OccurrencesConcat | day2/src/main.rs:63-68 | counting is additive over concatenated passwords |
| Counting.OccurrencesUniform | day2/src/main.rs:63-68 | a letter absent from a password counts 0; one that fills it counts its length |
| PasswordPhilosophy.ExampleOld | day2/src/main.rs:12-20 | two of the three example lines pass the old policy |
| PasswordPhilosophy.ExampleNew | day2/src/main.rs:12-16 | one of the three example lines passes the new policy |
| TobogganTrajectory.TreesCount | day3/src/main.rs:156-169 | the count of a slope is the number of rows it looks at that hold a tree where it crosses them, the map repeating to the right |
| TobogganTrajectory.TreesBound | day3/src/main.rs:156-169 | only rows the slope looks at (every `down`-th row) can add to the count, so it is at most their number and at most the number of rows |
| TobogganTrajectory.CountTrees | day3/src/main.rs:103-113 | a counting loop panics exactly when a row it looks at is empty (`place % line.len()` divides by zero) and otherwise returns the number of trees on the slope |
| TobogganTrajectory.EveryRowChecked | day3/src/main.rs:84-96 | a slope going down one row looks at every row, so when it does not panic no row is empty and the down-two slope cannot panic either |
| TobogganTrajectory.Slopes | day3/src/main.rs:78-174 | `main` panics exactly when some row of the map is empty, and otherwise returns the product of the five slope counts |
| TobogganTrajectory.ExampleRight3Down1 | day3/src/main.rs:40-54 | the example map meets 7 trees on right 3, down 1 |
| TobogganTrajectory.ExampleRight1Down1 | day3/src/main.rs:64 | the example map meets 2 trees on right 1, down 1 |
| TobogganTrajectory.ExampleRight5Down1 | day3/src/main.rs:66 | the example map meets 3 trees on right 5, down 1 |
| TobogganTrajectory.ExampleRight7Down1 | day3/src/main.rs:67 | the example map meets 4 trees on right 7, down 1 |
| TobogganTrajectory.ExampleRight1Down2 | day3/src/main.rs:68 | the example map meets 2 trees on right 1, down 2 |
| TobogganTrajectory.Example | day3/src/main.rs:62-70 | on the example map the five counts are 7, 2, 3, 4 and 2, with product 336 |
| BinaryBoarding.HalvingIsBinary | day5/src/main.rs:8-32 | the halving procedure of the puzzle, started on `2^n` seats, lands on the pass characters read as a binary number |
| BinaryBoarding.BitsBound | day5/src/main.rs:57-82 | `n` characters read as bits give a number below `2^n` |
| BinaryBoarding.ScanIsPass | day5/src/main.rs:62-82 | the loop over a line panics exactly when the line has an unknown character or more than seven row or three column characters; otherwise its state holds the bits read so far at the top of the row and column |
| BinaryBoarding.PanicSticks | day5/src/main.rs:62-82 | once the loop panics on a prefix of the line it panics on the whole line |
| BinaryBoarding.DecodePass | day5/src/main.rs:57-82 | the loop with its four arms and the `panic!` arm yields exactly the row and column of `Pass`, or panics when `Pass` does |
| BinaryBoarding.PassIsHalving | day5/src/main.rs:8-32 | a line of seven row and three column characters decodes to the row and column the halving procedure finds, below 128 and 8 |
| BinaryBoarding.PassBounds | day5/src/main.rs:57-82 | any line that decodes gives a row below 128 and a column below 8, so the `u8` accumulators never overflow |
| BinaryBoarding.SeatId | day5/src/main.rs:48-50 | the row and column can be read back from the seat ID, and a valid seat's ID is below 1024 |
| BinaryBoarding.WellFormedPass | day5/src/main.rs:10-23 | a pass of the documented shape decodes to its row part and column part read as binary numbers |
| BinaryBoarding.Example1 | day5/src/main.rs:12-34 | `FBFBBFFRLR` is row 44, column 5, seat ID 357 |
| BinaryBoarding.Example2 | day5/src/main.rs:38 | `BFFFBBFRRR` is row 70, column 7, seat ID 567 |
| BinaryBoarding.Example3 | day5/src/main.rs:39 | `FFFBBBFRRR` is row 14, column 7, seat ID 119 |
| BinaryBoarding.Example4 | day5/src/main.rs:40 | `BBFFBBFRLL` is row 102, column 4, seat ID 820 |
| BinaryBoarding.MaxSeatId | day5/src/main.rs:51-90 | `main` panics exactly when some line's loop panics; otherwise the result is at least every seat ID, and when not 0 it is the ID of some pass (the maximum) |
| CustomCustoms.LetterIndex | day6/src/main.rs:63 | a character has a flag exactly when it is a letter of either case, and that flag is one of the 26; digits and other characters panic |
| CustomCustoms.MarkMonotone | day6/src/main.rs:61-66 | marking a line never clears a flag |
| CustomCustoms.MarkIdempotent | day6/src/main.rs:61-66 | marking the same line twice is marking it once |
| CustomCustoms.AnsweredConcat | day6/src/main.rs:61-66 | the questions of two lines together are the union of each line's questions |
| CustomCustoms.MarkConcat | day6/src/main.rs:61-66 | marking one line and then another is marking their concatenation |
| CustomCustoms.CheckQuestion | day6/src/main.rs:61-66 | `check_question` goes through exactly when every character has a flag, and then sets the flags of the line's questions and changes no other flag |
| CustomCustoms.CountTrueIsSize | day6/src/main.rs:51-59 | the number of set flags is the number of questions they stand for |
| CustomCustoms.Sum | day6/src/main.rs:51-59 | `sum` returns the number of questions whose flag is set, at most the number of flags |
| CustomCustoms.MarkAll | day6/src/main.rs:61-66 | after a line the set flags are those set before plus the line's questions |
| CustomCustoms.NoAnswers | day6/src/main.rs:70 | a fresh array of 26 flags holds no answered question |
| CustomCustoms.TotalStep | day6/src/main.rs:72-93 | a blank line closes the group and adds its count; a line with a non-letter panics; any other line adds its questions to the group |
| CustomCustoms.BlankLine | day6/src/main.rs:74-88 | at a blank line, adding the group's count and resetting the flags keeps the running total on track to the whole total |
| CustomCustoms.AnswerLine | day6/src/main.rs:89-92 | at a line of letters, marking its questions keeps the running total on track; a non-letter makes the whole run panic |
| CustomCustoms.CustomsTotal | day6/src/main.rs:68-96 | `main` returns exactly the reference total: the sum over the blank-line separated groups of the number of questions anyone in the group answered, or a panic |
| CustomCustoms.GroupCount | day6/src/main.rs:6-14 | a group's count is the number of different questions anyone in it answered, independent of the order of its people and of duplicated answers |
| CustomCustoms.GroupPrefix | day6/src/main.rs:89-92 | reading the lines of a group, whatever follows it, adds to the questions already seen exactly the questions anyone in the group answered |
| CustomCustoms.GroupTotal | day6/src/main.rs:73-88 | a group closed by a blank line contributes the number of questions anyone in it answered, and counting starts afresh after the blank line |
| CustomCustoms.LastGroupTotal | day6/src/main.rs:94 | the last group, with no blank line after it, is counted too |
| CustomCustoms.Example | day6/src/main.rs:18-42 | the five example groups give 11 |
| HandyHaversacks.ReachableStep | day7/src/main.rs:90-93 | a child of a colour reachable from the start is reachable too |
| HandyHaversacks.ClosedHoldsReachable | day7/src/main.rs:85-94 | a set of colours that every edge leaving it leads back into holds every colour reachable from any of its members |
| HandyHaversacks.Pushed | day7/src/main.rs:91-93 | pushing the first `k` edges at the front gives `k` colours that include every one of their children |
| HandyHaversacks.PushChildren | day7/src/main.rs:91-93 | the children of the popped colour go on the front of the stack, last edge first; they are reachable from the start, and the walks left to do drop by one |
| HandyHaversacks.PushOne | day7/src/main.rs:92 | one push keeps every stack entry reachable and adds the walks of the pushed colour |
| HandyHaversacks.Dfs | day7/src/main.rs:78-96 | `Graph::dfs` ends on a graph without cycles (it pushes every child, visited or not) and returns exactly the colours reachable from the source, the source included |
| HandyHaversacks.CanReach | day7/src/main.rs:160-171 | the colours counted are, in increasing order, exactly those other than the target from which the target can be reached |
| HandyHaversacks.DfsSum | day7/src/main.rs:98-112 | `dfs_sum` returns exactly the reference count `BagCount`: one for the bag itself plus, over its edges in rule order, the quantity times the count of the contained bag |
| HandyHaversacks.BagCountRankFree | day7/src/main.rs:98-112 | the bag count depends on the rules only, not on the ranking that shows they have no cycle |
| HandyHaversacks.BagCountBounds | day7/src/main.rs:98-112 | with no negative quantity a bag counts at least itself, every edge's bags are part of its content, and it counts only itself exactly when every quantity it lists is zero |
| HandyHaversacks.ContentCountBounds | day7/src/main.rs:104-109 | the same bounds for the contribution of the edges from `k` on |
| HandyHaversacks.ExampleRanked | day7/src/main.rs:10-18 | the first example's rules have no cycle |
| HandyHaversacks.ExampleReachers | day7/src/main.rs:24-31 | in the first example exactly the four colours light red, dark orange, bright white and muted yellow can hold a shiny gold bag |
| HandyHaversacks.ExampleHolders | day7/src/main.rs:26-29 | each of those four colours reaches shiny gold |
| HandyHaversacks.ExampleNotHolders | day7/src/main.rs:14-18 | the colours inside shiny gold cannot hold it |
| HandyHaversacks.ExampleBagCount | day7/src/main.rs:39-46 | a shiny gold bag of the first example holds 32 other bags |
| HandyHaversacks.ChainBagCount | day7/src/main.rs:50-60 | in the chain of the second example a shiny gold bag holds 126 other bags |
| HandheldHalting.Decode | day8/src/main.rs:53-64 | the opcode is one of the four codes and the argument is kept |
| HandheldHalting.DecodeMnemonic | day8/src/main.rs:56-61 | `decode` inverts the mnemonics of `nop`, `jmp` and `acc`, and gives code 3 exactly to every other mnemonic |
| HandheldHalting.Exec | day8/src/main.rs:75-87 | a turn that does not panic (fetch out of bounds, unknown opcode, checker indexed out of bounds) lands on an instruction of the program |
| HandheldHalting.UnmarkedUpdate | day8/src/main.rs:87-91 | marking an unmarked instruction leaves one fewer to mark, which bounds the loop |
| HandheldHalting.Run | day8/src/main.rs:66-94 | `run` with its `checker` array returns exactly what the reference `RunProgram` describes |
| HandheldHalting.AccumulatorIsSum | day8/src/main.rs:80-83 | after `n` turns the accumulator is the sum of the arguments of the `acc` instructions run |
| HandheldHalting.DistinctStep | day8/src/main.rs:87-91 | a turn that reaches an unmarked instruction extends the run of distinct instructions |
| HandheldHalting.MarksStep | day8/src/main.rs:90 | after a mark the checker holds exactly the instructions visited so far |
| HandheldHalting.RunFromMeaning | day8/src/main.rs:74-92 | from any point of a run of distinct visits, a result is the accumulator at the first turn that repeats a visit, and a panic comes before any repeat |
| HandheldHalting.RunProgramMeaning | day8/src/main.rs:66-94 | `run` reports the accumulator at the first turn that reaches an instruction already visited, a panic coming first otherwise; instruction 0 counts as visited only when the entry is marked |
| HandheldHalting.ExampleProgram | day8/src/main.rs:16-44 | the example program stops with 5 in the accumulator |
| HandheldHalting.EntryRunsTwice | day8/src/main.rs:68-72 | on `acc +1; jmp -1` the loop as written reports 2 although the first repeat happens with 1 in the accumulator; marking the entry reports 1 |

## Left out

- Reading standard input, splitting lines, `println!` and the debug printing (`_print` in day17) are not modelled; every kernel takes its input as already parsed values.
- Regular-expression parsing (day2 `from_str`, day7 rule captures, day8 and day16 rule and range captures) and `str::parse` are not modelled: the regex crate is foreign code. Entries, rules and tickets are given as values. What a line that fails to parse does differs by day:
  - day16: a line that fails to parse is an `Option` that is `None`, and the scan panics on it, as the `unwrap`s do (day16/src/main.rs:108-135).
  - day2: a line the pattern does not match still gives `Ok` with the starting values (positions 0 and 0, letter `'0'`, password `"0"`). That entry can be passed as a value (`PasswordPhilosophy.UnmatchedEntry`), and `PasswordPhilosophy.CheckNew` panics on it at `min - 1` (day2/src/main.rs:41-55, 74). A number too large for `u16` gives `Err`, and `main` skips that line after printing "error parsing line" (day2/src/main.rs:47-48, 99-101). Such a line is simply absent from the entries.
  - day8: a line the pattern does not match panics at `captures(..).unwrap()` (day8/src/main.rs:102). That panic is not modelled, because the program is given as decoded instructions.
  - day7: text that `captures_iter` does not match adds no edge (day7/src/main.rs:131), so it is simply absent from the graph.
- The day18 parser is generated from a grammar that is not part of this model; trees are built directly, and the `Formatter` machinery becomes a plain string function.
- Fixed-width overflow (`i32`, `i64`, `i128`, `u128`, `usize`) and Rust's overflow panics in debug builds are not modelled; integers are unbounded. The exceptions are the `u16` fields of day2, the `u128` cast of a negative day18 literal (`OperationOrder.LeafValue`), the `usize` underflows that the code can reach, which are panics, and the "shift left with overflow" panic of day5. In day5, `1 << row_i` or `0 << row_i` panics once `row_i` has reached -1, on an eighth row character, and the same holds for `col_i` on a fourth column character (day5/src/main.rs:64-79; `BinaryBoarding.Pass` and `BinaryBoarding.ScanIsPass`).
- Library sorts (`sort`, `sort_unstable`, `sort_by_key`) are not modelled: the sorted sequence is a parameter, tied to the input by a predicate (sorted and a permutation), or assumed sorted where the lemma needs it.
- `HashMap` and `HashSet` iteration order is unspecified. In day16 the order among equal candidate counts is the `options` parameter, and the product is stated over the set of fields. In day7 and day17 the sets are Dafny sets.
- ReportRepair.Search2Complete, ReportRepair.Search3Complete and ReportRepair.Find3Complete: they require a sorted report, because the two-pointer search only finds every pair on a sorted slice and `main` sorts before the call.
- TobogganTrajectory.CountTrees: it takes the slopes with `down == 1`, or `down == 2` with `right == 1`; these are the five slopes `main` uses. The map is taken to be ASCII, so a row's byte length (`len`) equals its character count (`chars().nth`).
- CustomCustoms: the flags after a panic (a digit underflows `- 10`, and a character that is neither a letter nor a digit fails the `unwrap`) are unspecified, because the program stops there.
- HandyHaversacks.Dfs, HandyHaversacks.CanReach, HandyHaversacks.DfsSum and HandyHaversacks.BagCount: they require a ranked (acyclic) graph. A cyclic bag graph makes the source loop forever or overflow the stack. The `unwrap` on a colour without a rule is not modelled: every colour has an edge list.
- HandheldHalting.Run: the `i32` accumulator does not wrap.
- AdapterArray.Arrangements: it requires at least one entry, because the setup list always holds the outlet and the device.
- SeatingSystem.Round, SeatingSystem.RoundRow and SeatingSystem.Settle: they require a rectangular grid. On ragged rows `neighbours` can index past a shorter row and panic; that panic is not modelled.
- SeatingSystem.Settle: it takes a bound on the number of rounds. The source loops until the grid is stable and does not terminate on a grid that never settles.
- RainRisk.Decode: the amount is given as a number; parsing `entry[1..]` is not modelled. The `-360` arm of the heading match is dead code, which is proved (`RainRisk.EastArmUnreachable`) rather than modelled.
- ShuttleSearch.ChooseBusIsEarliest, ShuttleSearch.ChooseBusMinimal, ShuttleSearch.ChooseBusNone and ShuttleSearch.ChooseBusLast: they take positive bus ids. A zero id is a panic in `ShuttleSearch.EarliestBus`, and negative ids are not modelled.
- ShuttleSearch.NormaliseOffsets and ShuttleSearch.EarliestAlignedTimestamp: they require every entry to be `-1` (an `x`) or a positive id. A zero id panics at the `%`. Negative ids are not modelled: `parse::<i128>` accepts a leading `-`, so an entry `-5` would reach the offset computation as the id -5, and the requires excludes it. An entry `-1` is read as an `x`, which the model covers.
- ConwayCubes.Conway.constructor: the bounds enclose the cubes only when no row is longer than the first, because the `y` bound comes from the first row's length.
- The day17 loop of six cycles in `main` and the example count of 112 active cubes after six cycles are not modelled; evaluating the example is out of reach of the verifier. `iterate` is modelled and proved for any number of calls.

## Findings

| source | as written | input that shows it | evidently intended | confidence | as-written member | corrected member |
|---|---|---|---|---|---|---|
| day1/src/main.rs:106-118 | `check_sum_2` lets the head and tail pointers meet, so one entry can be paired with itself | report `[1, 1010, 5000]` with target 2020 gives `(1010, 1010)` | two different entries | not executed | ReportRepair.SameEntryTwice | ReportRepair.CheckSum2Meaning |
| day1/src/main.rs:72-93 | `check_sum_3` skips only the fixed entry `k`, so `i` and `j` can meet | report `[10, 1005, 3000]` with target 2020 gives `(10, 1005, 1005)` | three different entries | not executed | ReportRepair.SameEntryTwiceInTriple | ReportRepair.Find3Complete |
| day8/src/main.rs:66-92 | `run` marks an instruction only after jumping to it, and instruction 0 is never marked before it runs | program `acc +1; jmp -1` reports 2 | stop before any instruction, including the first, runs a second time; the report is 1 | not executed | HandheldHalting.EntryRunsTwice | HandheldHalting.RunProgramMeaning |
