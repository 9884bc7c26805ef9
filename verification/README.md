# Verification of the quantroute optimisation core

This project models the optimisation core of `quantroute` in Dafny and proves what it is for: five algorithms over
routes and a road graph, and how they fit together.

- **Encoding and split** (`Sorting`, `Split`, `Encoding`). A vector of random keys is sorted into a giant tour, and a
  k-bounded Bellman recurrence cuts the tour into one consecutive segment per vehicle, with heterogeneous capacities,
  per-vehicle depots, clocks and a sum or makespan objective. The table-filling loops, the backtracking and the greedy
  fallback are proved against the set of all fitting cuts.
- **Validator, evaluator and driver** (`Validator`, `Evaluate`, `Feasibility`, `Pricing`, `Driver`, `Outcomes`). The plain
  measurement of routes, which the split and the repair must agree with; the price of a key vector; the state machine of
  a whole optimisation run; and what violations, prices and stop reasons mean in terms of the routes, the clock and the
  trace alone.
- **Repair** (`Repair`, `RepairSteps`, `RepairRuns`, `Tidy`, `TidyAlways`). The guarded ejection loop, the placement of
  stops without a place, conservation, what each step does and what it costs, why every input has exactly one repair,
  and when the final sort adds lateness.
- **Road graph** (`RoadGraph`, `Walks`, `Search`, `AnyWeights`, `Dijkstra`, `RoadMatrix`). Compressed rows built by
  counting, a lazy-deletion Dijkstra search with early stop and a carried second metric, when it ends if weights may be
  negative, path rebuilding, and the matrix of one weight snapshot, which is a quasi-metric.
- **Dynamic weights and small algorithms** (`Weights`, `Holm`, `Aco`). Exponential averaging over runs of updates, the
  Holm step-down adjustment, and the ant-colony population with its random-key round trip.

`Problem` holds the instance and what a route is worth by definition; `Base` holds optional values, list edits and the
order of strings. Loops of the original are loops here, its arrays are arrays, and its mutable objects are classes; each
method is proved against a function or a predicate, and the properties are lemmas about those.

`dafny verify dfyconfig.toml` checks everything.

Numbers are exact reals. Where the original lets `inf` or `nan` in, a datatype does too (`Cost`, `Limit`, `Key`, `Num`).
The tolerance of 1e-9 is the constant `EPS`.

## Where the code and its documentation differ

The model follows the code.

- `repair.py:8-10` says that a stop without a feasible place goes to the cheapest position overall. The code
  (`repair.py:112-116`) puts it at the end of the route with the least load: `RepairRuns.ForcedIsNotCheapest` gives an
  input, and `RepairRuns.CheapestOverallExactly` says exactly when a waiting stop does get the cheapest position.
- `repair.py:11-12` says that sorting by due time reduces lateness. `Tidy.TidyCanCauseLateness` gives a punctual route on
  a metric of which every repair is late. `Tidy.ExchangeExact` says exactly when exchanging two neighbours never adds
  lateness, `Tidy.TidyNotWorse` lifts this to whole sorts, and `TidyAlways` says exactly for which stops the sort never
  adds lateness at all: `TidyExact` over all windows, `PromptTidyExact` over those that make nobody wait.
- The decoder and the repair accept an overflow of up to 1e-9, the validator reports any overflow:
  `Evaluate.FlagToleratesOverflow`, and `Evaluate.ToleratedOverflow` gives an instance on which they always disagree.
- Under the makespan objective the decoder counts driving only, while the validator also counts waiting and service:
  `Validator.DecodedMakespanIsAtMostMeasured`.

## Model

| member | source | states |
|---|---|---|
| Split.Split | src/quantroute/encoding.py:224-298 | The split of any giant tour: the segments concatenate to the tour, one per vehicle; the flag is true iff every segment is within its vehicle's capacity plus the tolerance, iff some fitting cut exists at all; when true no fitting cut is worth less, when false the plan is the greedy fallback; either way the plan is a function of the tour, so ties between equally good cuts are always broken the same way |
| Split.CellIsMinimum | src/quantroute/encoding.py:234-285 | Every `cost_to[j][m]` is the minimum over all fitting cuts of the first j stops among m vehicles, attained by one of them, and `inf` exactly when there is none (sum and makespan objectives, lateness charges included) |
| Split.CellIsLowerBound | src/quantroute/encoding.py:234-285 | No fitting cut of the first j stops among the first m vehicles is worth less than the cell |
| Split.CellIsAttained | src/quantroute/encoding.py:287-296 | Following `pred_i` back from a finite cell spells out a fitting cut worth exactly the cell |
| Split.LastSegment | src/quantroute/encoding.py:282-296 | The segment a finite cell's predecessor names fits its vehicle and accounts for the difference to the cell before it; an empty one costs nothing |
| Split.EntryBounds | src/quantroute/encoding.py:245-285 | At every point of the scan a cell is at most the idle option and at most every candidate tried so far |
| Split.EntryOrigin | src/quantroute/encoding.py:283-285 | A cell's value is either the idle option or the candidate that starts at its predecessor |
| Split.EntryFirst | src/quantroute/encoding.py:245-285 | How ties are broken: a vehicle stays idle unless a segment is strictly cheaper, and of equally cheap segments the one with the earliest start is kept |
| Split.TooHeavyStays | src/quantroute/encoding.py:261-263 | The early `break` loses nothing: once a segment is too heavy for the vehicle every longer one is |
| Split.ServeInWindow | src/quantroute/encoding.py:268-276 | Waiting and lateness of one arrival: service starts at the later of arrival and opening, and lateness grows by how much the close is missed |
| Split.Extend | src/quantroute/encoding.py:265-280 | One more stop in a segment: the running cost, clock and lateness are those of the longer route, and the score is its driven cost plus 100 per second of lateness |
| Split.TryStop | src/quantroute/encoding.py:259-280 | A stop either joins the segment at the price of the longer segment, or no longer segment from this start can improve any cell |
| Split.Improve | src/quantroute/encoding.py:282-285 | A candidate replaces a cell only if strictly cheaper, and touches no other cell |
| Split.ScanFrom | src/quantroute/encoding.py:249-285 | One start i: column m moves on by one start, whatever the break skipped, and no other column changes |
| Split.StartColumn | src/quantroute/encoding.py:245-247 | Leaving the vehicle idle: the column starts as a copy of the one before, each cell its own predecessor |
| Split.FillColumn | src/quantroute/encoding.py:238-285 | One vehicle: its column ends at its final values and no other column changes |
| Split.FillTable | src/quantroute/encoding.py:234-285 | The nested loops fill every column with its final values |
| Split.Backtrack | src/quantroute/encoding.py:287-296 | The backtracking loop returns exactly the cut the predecessors spell out |
| Split.GreedyAssignment | src/quantroute/encoding.py:300-315 | The fallback keeps the tour order, moves on only when the next stop does not fit, overloads a vehicle other than the last only by the single stop that opened it, and opens later vehicles only with a stop |
| Split.GreedyUnique | src/quantroute/encoding.py:300-315 | These promises leave no choice: the fallback is the only plan that keeps them |
| Split.LastCell | src/quantroute/encoding.py:287-298 | The bottom right cell is finite iff the tour can be cut to fit, and then its backtracked cut is optimal |
| Split.SplitByTable | src/quantroute/encoding.py:229-298 | The branch on the last cell: the cut its predecessors spell out, which is optimal, or the fallback exactly when no cut fits |
| Encoding.ValidateKeys | src/quantroute/encoding.py:212-218 | Keys are accepted iff there is one finite number per stop, and the error names the first check that fails |
| Encoding.GiantTourCoversStops | src/quantroute/encoding.py:183-186 | Every key vector, ties included, orders every stop exactly once |
| Encoding.RouteCost | src/quantroute/encoding.py:317-329 | The accumulator loop returns the sum of the legs from start depot to end depot, and nothing for an idle vehicle |
| Encoding.TotalCost | src/quantroute/encoding.py:198-202 | The decoded cost is the sum of the route costs, or their maximum for makespan |
| Encoding.ScoreIsCostPlusLateness | src/quantroute/encoding.py:280-282 | The split never values a plan below its cost, and exactly at its cost when time windows are off |
| Encoding.DecodeDetailed | src/quantroute/encoding.py:188-208 | Good keys decode to one route per vehicle in vehicle order, cut from the giant tour, with their cost and the split's flag; other keys are refused |
| Encoding.DecodeUnique | src/quantroute/encoding.py:188-208 | The same keys always decode to the same routes, cost and flag |
| Encoding.DecodeFlagMeansCapacity | src/quantroute/encoding.py:70-71 | `Decoded.feasible` is true iff every returned route is within capacity plus the tolerance; when false, every consecutive cut of the tour overloads some vehicle |
| Encoding.WriteRanks | src/quantroute/optimizers/ortools_solver.py:247-250 | One route's known stops get consecutive rank keys, unknown ids are skipped without using up a rank |
| Encoding.ReconstructVector | src/quantroute/optimizers/ortools_solver.py:241-251 | The vector holds the rank key of each visited stop and 0.5 elsewhere |
| Encoding.ReconstructedTour | src/quantroute/optimizers/ortools_solver.py:241-251 | The giant tour of the reconstructed keys of a complete plan is the concatenation of its routes |
| Encoding.RedecodingNeverLoses | src/quantroute/optimizers/ortools_solver.py:240-251 | Routes that cover every stop once, in vehicle order and within capacity, re-decode to a feasible plan that the split values no higher; with time windows off it costs no more, for sum and makespan |
| Sorting.StableArgsortUnique | src/quantroute/encoding.py:220-222 | The contract of a stable argsort determines the order: two of the same keys are equal |
| Sorting.RankKeyIsMiddle | src/quantroute/optimizers/aco.py:141-145 | The key of rank r among n is the middle of the r-th of n equal slots |
| Sorting.RankKeysRoundTrip | src/quantroute/optimizers/aco.py:141-145 | Sorting the rank keys of a tour gives the tour back |
| Sorting.PermutationKeepsElements | src/quantroute/encoding.py:220-222 | Reading a list through a permutation keeps its elements with multiplicity |
| Sorting.SortByCorrect | src/quantroute/repair.py:78 | The sort by any total preorder is stable: ordered, the same elements, and equal elements in their old order |
| Sorting.StableSortUnique | src/quantroute/repair.py:78 | The contract of a stable sort has one answer |
| Sorting.SortByFixpoint | src/quantroute/repair.py:78 | A list already in order comes back unchanged |
| Problem.PathCostJoin | src/quantroute/matrix.py:137-151 | The sum of consecutive legs splits at any node of the path |
| Problem.RouteSnoc | src/quantroute/constraints.py:222-234 | How load, path length, arrival and lateness of a route grow when one more stop is served |
| Problem.KnownIds | src/quantroute/routes.py:45-49 | Naming the stops of a route and looking the names up gives the stops back |
| Validator.Serve | src/quantroute/constraints.py:222-234 | One turn of the walk advances clock, load, travel, distance and lateness to those of the longer route |
| Validator.Finish | src/quantroute/constraints.py:236-246 | The drive back and the comparison with capacity, maximum duration and shift end |
| Validator.WalkRoute | src/quantroute/constraints.py:186-292 | A route is measured by its known stops; unknown ids and every exceeded limit are reported in order; every id counts as a visit |
| Validator.FindUnassigned | src/quantroute/constraints.py:153 | The sorted ids of exactly the required stops nobody visited |
| Validator.FindDuplicates | src/quantroute/constraints.py:154 | The sorted ids of exactly those visited more than once |
| Validator.MeasureRoute | src/quantroute/constraints.py:130-150 | A route of an unknown vehicle is reported and its visits counted, but it is not measured |
| Validator.MeasureRoutes | src/quantroute/constraints.py:130-150 | All routes in order, with one shared visit counter |
| Validator.SumUp | src/quantroute/constraints.py:170-175 | Totals are sums over the measured routes; the makespan is the longest duration |
| Validator.Evaluate | src/quantroute/constraints.py:122-179 | The whole measurement: metrics, totals, missing and repeated stops, and exactly the violations these imply |
| Validator.ScoreIsMeasured | src/quantroute/constraints.py:199-238 | For a served vehicle the split's score equals the measured travel time (or distance) plus 100 times the measured lateness |
| Validator.PlanScoreIsMeasured | src/quantroute/constraints.py:170-173 | For the sum objectives the value of a plan and the measured totals differ by the idle vehicles' start-to-end legs only |
| Validator.SplitValueIsMeasuredTotal | src/quantroute/constraints.py:170-173 | ... so the two are equal iff no idle vehicle's start-to-end leg costs anything |
| Validator.DurationCoversTravel | src/quantroute/constraints.py:239 | A route takes at least as long as it drives |
| Validator.DecodedMakespanIsAtMostMeasured | src/quantroute/constraints.py:175 | The decoder's makespan, which counts driving only, never exceeds the measured one |
| Repair.MostOverloaded | src/quantroute/repair.py:121-127 | The first vehicle with the largest excess above the tolerance, and none iff all routes fit |
| Repair.Heaviest | src/quantroute/repair.py:102 | The first occurrence of the stop with the largest (demand, id) |
| Repair.CheapestFeasibleInsertion | src/quantroute/repair.py:129-153 | The lexicographic minimum of (delta, vehicle id, position) over all other vehicles with room and all positions; none iff nobody has room |
| Repair.InsertionChangesTravelByDelta | src/quantroute/repair.py:146 | Performing an insertion changes the measured travel time of that route by exactly its delta, empty routes included |
| Repair.EjectFrom | src/quantroute/repair.py:99-108 | The loop body moves the heaviest stop of the worst vehicle to its cheapest place, or sets it aside |
| Repair.EjectionMakesProgress | src/quantroute/repair.py:98-108 | Every ejection keeps the stops, strictly decreases the number of stops on overloaded vehicles and overloads nobody new |
| Repair.RelieveOverloads | src/quantroute/repair.py:96-108 | The loop always ends through its `return`, with every vehicle within capacity, before the guard runs out; plans that fit are not touched |
| Repair.LeastLoaded | src/quantroute/repair.py:114 | The vehicle with the smallest (load, id) |
| Repair.PlaceOne | src/quantroute/repair.py:111-116 | A waiting stop goes to its cheapest place with room, or to the end of the least loaded route iff nobody has room |
| Repair.PlaceLoose | src/quantroute/repair.py:110-117 | All waiting stops are placed, heaviest first |
| Repair.PlacingOverflowBound | src/quantroute/repair.py:110-117 | While stops are placed a vehicle exceeds its capacity by at most the tolerance plus what was forced on it |
| Repair.ReliefKeepsStops | src/quantroute/repair.py:96-108 | In every state of the relief loop the stops are those at its start |
| Repair.LoadRoutesKeepsStops | src/quantroute/repair.py:56-65 | Loading takes over exactly the known stops of all routes; those of unknown vehicles wait |
| Repair.RepairKeepsStops | src/quantroute/repair.py:67-92 | Repair never loses, duplicates or invents a known stop, for every input |
| Repair.RepairOverflowBound | src/quantroute/repair.py:73-74 | After a repair each vehicle's overflow is at most the tolerance plus the demand forced on it |
| Repair.ForcedExactlyWithoutRoom | src/quantroute/repair.py:112-116 | A stop is forced iff no vehicle has room for it at that moment |
| Repair.UnforcedRepairFits | src/quantroute/repair.py:73-74 | With nothing forced every repaired route is within capacity plus the tolerance |
| Repair.RepairLeavesFittingRoutesAlone | src/quantroute/repair.py:96-101 | Routes that already fit come back with at most their stops put in due order |
| Repair.RepairIsIdempotent | src/quantroute/repair.py:56-92 | When nothing had to be forced a second repair changes nothing |
| Repair.TidyPlan | src/quantroute/repair.py:76-78 | With time windows on every list is stably sorted by (close, open), equal windows keeping their order; otherwise nothing changes |
| Repair.Repair | src/quantroute/repair.py:56-92 | Repair always succeeds, the `RuntimeError` is unreachable, and the result is what loading, relief, placement and tidy-up yield |
| RepairSteps.LoadedInOrder | src/quantroute/repair.py:56-65 | Every vehicle starts with the known stops of all its routes in order; those of routes for no known vehicle wait |
| RepairSteps.EjectionRelieves | src/quantroute/repair.py:96-108 | One relieving step in plain terms: the first of the most overloaded vehicles gives up the first occurrence of its heaviest stop, of equally heavy ones that with the greatest id; if another vehicle can take it, the stop stands afterwards at the position where the measured travel time of a route grows least, the least vehicle id and the first position deciding ties, and no other route changes; it waits iff no other vehicle can take it |
| RepairSteps.RepairRelieves | src/quantroute/repair.py:96-108 | Every step of the relief of every repair is such a step |
| RepairSteps.RepairPlaces | src/quantroute/repair.py:110-117 | In every repair the waiting stops are placed heaviest first, equally heavy ones by id, each where measured travel grows least among the vehicles that can take it, or, iff none can, at the end of the least loaded route, the least id deciding ties |
| RepairSteps.RepairTidies | src/quantroute/repair.py:76-80 | With time windows on every repaired route is ordered by close and then open, and stops of the same window keep their order; otherwise nothing moves |
| RepairRuns.CheapestUnique | src/quantroute/repair.py:129-153 | The best insertion of a stop is unique: delta, vehicle id and position decide every tie |
| RepairRuns.ReliefUnique | src/quantroute/repair.py:96-108 | The relief loop has one run from each plan |
| RepairRuns.PlacementUnique | src/quantroute/repair.py:110-116 | A waiting stop has one place |
| RepairRuns.RepairUnique | src/quantroute/repair.py:56-92 | The same routes are always repaired in the same way |
| RepairRuns.RepairExists | src/quantroute/repair.py:56-92 | Every input has a repair |
| RepairRuns.CheapestOverallExactly | src/quantroute/repair.py:112-116 | As long as some vehicle has room, a waiting stop goes to the lexicographically least of all positions of all vehicles iff the vehicle of that position has room |
| RepairRuns.RoomEverywhereIsCheapest | src/quantroute/repair.py:112-116 | With room in every vehicle a waiting stop goes to the least of all positions, room ignored |
| RepairRuns.LeastOverallExists | src/quantroute/repair.py:129-153 | There is a least of all positions, with room or without |
| RepairRuns.ForcedIsNotCheapest | src/quantroute/repair.py:8-10 | The documented "cheapest position overall" for stops without room is false: every repair of this input sends a vehicle from 100 seconds away although another one is parked at the stop |
| RepairRuns.ForcedRepairIsNotFixed | src/quantroute/repair.py:96-117 | A repair that forced a stop need not be a fixed point: one vehicle, two stops it cannot carry together; the first repair appends the waiting one, the second one swaps them |
| Tidy.TidyCanCauseLateness | src/quantroute/repair.py:11-12 | The documented "reduces lateness" is false in general: a punctual two-stop route, on a metric, of which every repair is late |
| Tidy.PairExact | src/quantroute/repair.py:76-78 | In numbers: serving two stops in due order is never later in total, whatever closing times their windows can have, iff in due order the second one is reached no later than the last of the two before, or than both windows are open, and the lateness is no larger for the two tightest choices of closing times |
| Tidy.ExchangeExact | src/quantroute/repair.py:76-78 | Exchanging two neighbours anywhere in a route, when they are due the other way round, never adds lateness, whatever the closing times and with any waiting for openings, iff the pair meets that condition and nobody behind it is delayed |
| Tidy.TwoStopTidyExact | src/quantroute/repair.py:76-78 | Putting two stops in due order never adds lateness, whatever the closing times and with any waiting for openings, iff the pair meets that condition |
| Tidy.TidyNotWorse | src/quantroute/repair.py:76-78 | A route of any length: if every exchange the sort makes meets that condition, the sort adds no lateness |
| TidyAlways.SlottedTidyNeverHurts | src/quantroute/repair.py:76-78 | When all first legs and all hops (service and leg) of a route are equal and nobody waits, the sort adds no lateness |
| TidyAlways.PromptTidyExact | src/quantroute/repair.py:76-78 | For given stops, while nobody waits: the sort never adds lateness, in whatever order they are served and whatever windows they have from the start of the shift on, iff all first legs are equal and all hops are equal |
| TidyAlways.InstantTidyNeverHurts | src/quantroute/repair.py:76-78 | When all first legs are equal and no hop takes any time, the sort adds no lateness, however long the vehicle waits |
| TidyAlways.WaitingHurts | src/quantroute/repair.py:76-78 | If the sort never adds lateness to given stops, two of them with equal first legs and equal hops both ways have hops that take no time: otherwise some windows make the sort reach the first one late by waiting at the other |
| TidyAlways.TidyExact | src/quantroute/repair.py:76-78 | For given stops the sort never adds lateness, in whatever order they are served and whatever windows they have, iff all first legs are equal and every hop takes no time |
| Feasibility.DurationAddsUp | src/quantroute/constraints.py:199-239 | A route takes its driving, its service and, with time windows on, its waiting |
| Feasibility.LatenessGrows | src/quantroute/constraints.py:226-228 | Each stop adds to the lateness exactly what it is reached after its close, if anything |
| Feasibility.PunctualExactly | src/quantroute/constraints.py:226-228 | A route has lateness 0 iff every stop is reached by its close |
| Feasibility.OverrunExactly | src/quantroute/constraints.py:241-246 | The overrun is how far each limit that is set, longest route and end of shift, is missed, both together, and 0 iff the vehicle is back by both |
| Feasibility.ViolationsExactly | src/quantroute/constraints.py:122-292 | A violation is on the list iff the routes deserve it: kind by kind, what is wrong, about whom, in which route and by how much |
| Feasibility.FeasibleExactly | src/quantroute/constraints.py:122-179 | Any routes are feasible iff all vehicles and stops are known, every stop is served once, and every route is within capacity, reaches every stop by its close when windows are on, and is back by both limits |
| Feasibility.CompletePlanFeasible | src/quantroute/constraints.py:122-179 | A plan that serves every stop once is feasible iff every vehicle is within these limits |
| Pricing.TotalsAddUp | src/quantroute/constraints.py:168-175 | The measured totals are the sums, over the vehicles, of driving time, driving distance, demand beyond capacity, lateness and time beyond the limits |
| Pricing.MakespanIsLongest | src/quantroute/constraints.py:175 | The makespan is the duration of some route, and none takes longer |
| Pricing.BaseCostMeans | src/quantroute/evaluate.py:95-99 | The base cost of every evaluation is the driving time of all vehicles, their driving distance, or the longest duration, as the objective says |
| Pricing.PriceMeans | src/quantroute/evaluate.py:6-10 | The documented price: fitness is base cost plus scale times (capacity weight times excess demand plus window weight times lateness plus duration weight times time beyond the limits) |
| Pricing.StructuralErrorCosts | src/quantroute/evaluate.py:121 | One more missing or repeated stop raises the fitness by the structural weight, whatever the scale |
| Pricing.FeasibleMeans | src/quantroute/evaluate.py:128 | An evaluation is feasible iff every vehicle is within its limits |
| Pricing.SplitIsPriced | src/quantroute/evaluate.py:108-117 | Without repair, for the sum objectives, base cost plus 100 per second of lateness is the value of the split plus the legs of idle vehicles |
| Pricing.DecodedCostMeans | src/quantroute/encoding.py:198-202 | A decoded plan costs the driving of the vehicles that serve somebody or, for makespan, the longest of their drives |
| Pricing.MakespanSplitMeans | src/quantroute/encoding.py:282-285 | For makespan the split values a plan at the greatest driving time plus 100 per second of lateness of a vehicle that serves somebody |
| Evaluate.BreachFreeMeansZeroTotals | src/quantroute/constraints.py:248-277 | No capacity, window or duration violation is recorded iff the three totals are zero |
| Evaluate.CompletePlanMeasurement | src/quantroute/constraints.py:153-166 | A plan that serves every stop once has no unassigned, duplicate or unknown stop, and is feasible iff the three breach totals are zero |
| Evaluate.SoftPrice | src/quantroute/evaluate.py:114-122 | Without missing or repeated stops the penalty is the ramped soft one, and for positive weights and scale it is zero iff nothing is breached |
| Evaluate.CompletePlanPrice | src/quantroute/evaluate.py:114-131 | For such a plan the structural penalty is 0 and, with positive weights and scale, feasible holds iff the penalty is 0 |
| Evaluate.DecodeIsComplete | src/quantroute/encoding.py:188-208 | The routes of any decode serve every stop exactly once |
| Evaluate.RepairIsComplete | src/quantroute/repair.py:56-92 | Repairing a complete plan gives a complete plan |
| Evaluate.MeasurementUnique | src/quantroute/constraints.py:122-179 | The same routes always measure the same |
| Evaluate.ScaleOnlyPenalises | src/quantroute/evaluate.py:108-131 | Evaluating the same keys at two scales gives the same routes, measurement, base cost and verdict, and fitness values that differ by the difference in scale times the soft penalty |
| Evaluate.EvaluationExists | src/quantroute/evaluate.py:108-131 | Every key vector has a fitness at every scale |
| Evaluate.FitnessAtScales | src/quantroute/evaluate.py:108-131 | The same of the fitness function that every evaluation computes |
| Evaluate.EvaluateOne | src/quantroute/evaluate.py:108-131 | Decode, optional repair, measurement and price of any key vector compute its fitness; bad keys and a negative scale are refused; no result has a structural penalty |
| Evaluate.FlagToleratesOverflow | src/quantroute/constraints.py:241-257 | The decoder's flag is true iff no measured overflow exceeds 1e-9, so a plan the validator accepts is one the decoder accepts |
| Evaluate.ToleratedOverflow | src/quantroute/encoding.py:70-71 | On this instance every decode is feasible and every measurement of it is not, with a positive total overflow of at most the tolerance |
| Driver.Incumbent.constructor | src/quantroute/optimizers/driver.py:101-105 | A fresh incumbent knows nothing |
| Driver.Incumbent.Offer | src/quantroute/optimizers/driver.py:107-117 | Offering a batch folds its results into the four fields one by one |
| Driver.OffersSummarise | src/quantroute/optimizers/driver.py:95-117 | After any candidates the incumbent reports the first of the cheapest feasible ones or, if there is none, the first of least fitness |
| Driver.FeasibleNeverWorsens | src/quantroute/optimizers/driver.py:109-113 | Once something feasible was seen no batch makes the incumbent dearer or infeasible |
| Driver.PenaltyScaleRamps | src/quantroute/optimizers/driver.py:212-215 | The penalty scale starts at its start value, stays between both ends, and rests at the end value from the last planned iteration on |
| Driver.EvaluateBatch | src/quantroute/evaluate.py:142-145 | The fitness of every vector of an iteration at its penalty scale, or a failure iff that scale is negative |
| Driver.Begin | src/quantroute/optimizers/driver.py:156-165 | Iteration 0 |
| Driver.AskStop | src/quantroute/optimizers/driver.py:173-179 | The stop test sees the iteration, the incumbent cost and the stagnation of the run |
| Driver.Advance | src/quantroute/optimizers/driver.py:185-205 | One turn of the loop: the next incumbent, stagnation count and trace entry, or a failure at a negative penalty scale |
| Driver.Solve | src/quantroute/optimizers/driver.py:140-208 | The run over the modelled evaluator: trace entries are iterations 0 to the last with the incumbent cost of each, it stops at the first iteration whose stop test trips and reports the incumbent re-evaluated at scale 1; it fails iff an iteration that is reached has a negative penalty scale |
| Driver.Finalise | src/quantroute/optimizers/driver.py:231-274 | An incumbent always exists, and the reported figures are those of its evaluation at scale 1 |
| Driver.ReportedBest | src/quantroute/optimizers/driver.py:245-268 | best_cost is the minimum base cost over all feasible candidates ever evaluated, else that of the least-fitness one, and the re-evaluation at scale 1 reproduces the last trace cost |
| Driver.TraceNeverWorsens | src/quantroute/optimizers/driver.py:160-206 | From the first feasible incumbent on trace costs never rise and never become infeasible |
| Driver.CapReached | src/quantroute/optimizers/base.py:75-76 | The run never passes the cap and stops for "max_iterations" iff it is reached |
| Driver.StagnationMeansNoProgress | src/quantroute/optimizers/base.py:87-88 | Stopping for "stagnation" means that many last steps each improved by at most `min_improvement` |
| Outcomes.StopTestMeans | src/quantroute/optimizers/base.py:66-89 | The stop test of an iteration, read off the trace and the clock: the cap, then the time budget, then cost <= (1 + gap) * best known, then enough flat last steps |
| Outcomes.StopsForAReason | src/quantroute/optimizers/driver.py:166-208 | A run ends at the first iteration at which one of these holds, and reports the first that does |
| Outcomes.StagnationExactly | src/quantroute/optimizers/driver.py:192-194 | The stagnation counter reaches k iff the last k steps improved by at most the minimum |
| Outcomes.PenaltyScaleIsLinear | src/quantroute/optimizers/driver.py:212-215 | The penalty scale goes from start to end in equal steps |
| Outcomes.CandidateIsEvaluated | src/quantroute/optimizers/driver.py:185-189 | Every candidate of an iteration is evaluated at the scale of that iteration |
| Outcomes.ReportMeans | src/quantroute/optimizers/driver.py:245-268 | The reported figures are those of the reported routes, which serve every stop once: best_cost is their driving or longest duration, best_fitness adds every excess at its full price, and feasible holds iff no vehicle breaks a limit |
| RoadGraph.RowPointers | src/quantroute/roadgraph/graph.py:105-107 | `indptr[u]` is the number of edges that leave nodes below u |
| RoadGraph.SortedBoundary | src/quantroute/roadgraph/graph.py:103-107 | In a sorted list the entries below u are exactly the first that many |
| RoadGraph.RowOfPosition | src/quantroute/roadgraph/graph.py:103-107 | A position lies in row u iff the edge there leaves u |
| RoadGraph.BuiltGraphIsValid | src/quantroute/roadgraph/graph.py:102-107 | The rows tile the adjacency list and row u holds exactly the edges leaving u, each once, in edge order |
| RoadGraph.Build | src/quantroute/roadgraph/graph.py:52-109 | Input is accepted iff it has two or more distinct nodes and an edge, lists of equal length, endpoints in range, lengths of at least 0 and free-flow times above 0; otherwise the error is that of the first of these checks that fails; accepted input yields a graph with correct rows |
| Walks.ShortestUnique | src/quantroute/roadgraph/graph.py:166-169 | A pair of nodes has at most one shortest-path cost |
| Walks.ShortestTriangle | src/quantroute/roadgraph/matrix.py:43-54 | A detour never helps |
| Walks.ShortestMonotone | src/quantroute/roadgraph/matrix.py:90-92 | Pointwise larger weights never shorten a shortest path and never change reachability |
| Search.RelaxEdgeInv | src/quantroute/roadgraph/graph.py:240-248 | Looking at one edge keeps the search invariant: every finite distance is the weight of a walk ending in the recorded predecessor, its metres are that walk's length, and the queue holds every open node |
| Search.TopIsNearest | src/quantroute/roadgraph/graph.py:233-235 | A popped entry that is not stale is the distance of an unsettled node, and no unsettled node is nearer |
| Search.StepKeepsInv | src/quantroute/roadgraph/graph.py:232-248 | A whole turn of the loop, stale entries included, keeps the invariant and settles a node or shrinks the heap |
| Search.StepFreezes | src/quantroute/roadgraph/graph.py:232-248 | No step changes distance, metres, predecessor or walk of a settled node |
| Search.FinalStays | src/quantroute/roadgraph/graph.py:236-239 | A final answer stays the same however much longer the search runs |
| Search.WalkBound | src/quantroute/roadgraph/graph.py:232-248 | Along any walk the search is never behind, except where the walk has left the settled region |
| Search.FinalIsShortest | src/quantroute/roadgraph/graph.py:214-249 | For non-negative weights every needed node ends with the least weight over all walks, `inf` iff unreachable |
| Search.EarlyStopIsHarmless | src/quantroute/roadgraph/graph.py:163-210 | Whatever else a query asked for and whenever it stopped, the same travel time and the same metres come out |
| Search.SearchBounds | src/quantroute/roadgraph/graph.py:232-248 | At most one push per edge besides the first |
| AnyWeights.EndsExactly | src/quantroute/roadgraph/graph.py:232-248 | Whatever the signs of the weights, a search with `need=None` empties its heap iff no negative closed walk can be reached from the source |
| AnyWeights.EndedIsShortest | src/quantroute/roadgraph/graph.py:232-249 | ... and then every distance is the least weight over all walks, `inf` iff unreachable, negative weights included |
| AnyWeights.StepTracks | src/quantroute/roadgraph/graph.py:232-248 | For any weights a turn of the loop keeps this: a reached node is queued at its distance, or all its edges are satisfied |
| AnyWeights.StepNearer | src/quantroute/roadgraph/graph.py:232-248 | Without a reachable negative closed walk every distance is the weight of a simple walk, and every turn lowers one to another such weight or shrinks the heap |
| AnyWeights.ImprovementIsNew | src/quantroute/roadgraph/graph.py:244-248 | An edge that improves a node its walk already passes closes a negative walk |
| AnyWeights.NegativeLoopNeverEnds | src/quantroute/roadgraph/graph.py:232-248 | With a self-loop of weight -1 at the source a query for the other node is never answered: after every step something is queued, and it is not that node |
| AnyWeights.EarlyStopMisleads | src/quantroute/roadgraph/graph.py:236-239 | With a negative edge but no negative closed walk the early stop may answer wrongly: a query that stops at 1 although a walk costs 0 |
| Dijkstra.RelaxNode | src/quantroute/roadgraph/graph.py:240-248 | The inner loop over the row of u, in place |
| Dijkstra.PopOne | src/quantroute/roadgraph/graph.py:232-248 | One turn of the loop: a stale entry is dropped, the last needed node stops the search, any other node is settled |
| Dijkstra.StepShrinks | src/quantroute/roadgraph/graph.py:232-248 | The measure behind termination: every turn lowers some distance to one of finitely many values, or leaves the distances and shrinks the heap |
| Dijkstra.Dijkstra | src/quantroute/roadgraph/graph.py:214-249 | For all weights without a reachable negative closed walk the search terminates; a search for everything empties its heap, otherwise every needed node is final when it stops; with non-negative weights it pushes at most edges + 1 entries |
| RoadMatrix.RebuildPath | src/quantroute/roadgraph/graph.py:195-204 | The predecessor chain of a reached node ends at the source without cycling, zero weights included, and backwards it is the walk behind the distance, with its node list |
| RoadMatrix.ShortestPath | src/quantroute/roadgraph/graph.py:186-210 | The edges form a walk from origin to destination, their weights sum to the least travel time and their lengths to the metres; only an unreachable destination has no path; bad input is refused |
| RoadMatrix.TableRow | src/quantroute/roadgraph/graph.py:180-183 | One row of the tables: the shortest time to every target, and the metres along that path |
| RoadMatrix.ManyToMany | src/quantroute/roadgraph/graph.py:163-184 | Both tables for all sources and targets, or the first unknown node |
| RoadMatrix.PathAgreesWithTable | src/quantroute/roadgraph/matrix.py:87-88 | A path query and a matrix entry for the same pair agree in time and metres |
| RoadMatrix.BuildMatrix | src/quantroute/roadgraph/matrix.py:28-54 | Fewer than two or unknown nodes, a snapshot of the wrong length, disconnected, repeated or too many nodes are refused, in this order; otherwise the matrix holds the graph's answers for all pairs |
| RoadMatrix.MatrixAnswers | src/quantroute/roadgraph/matrix.py:62-66 | For two listed nodes the matrix answers the least weight of all walks and the metres of such a walk; for others nothing |
| RoadMatrix.MatrixIsQuasiMetric | src/quantroute/roadgraph/matrix.py:43-54 | Travel times have a zero diagonal, no negative entry, and satisfy the triangle inequality |
| RoadMatrix.MatrixMonotoneInTraffic | src/quantroute/roadgraph/matrix.py:90-92 | Pointwise slower edges never shorten an entry |
| RoadMatrix.InsertionDeltaNonNegative | src/quantroute/repair.py:146 | On a road matrix every insertion delta is at least 0 |
| Weights.EvolveBounds | src/quantroute/roadgraph/weights.py:100-110 | Over any run a weight stays between free flow and the largest of free flow, its start, its observations and its blanket values |
| Weights.NextContracts | src/quantroute/roadgraph/weights.py:100-110 | One observation, floor included, brings two weights of an edge closer by the factor 1 - a |
| Weights.EvolveContracts | src/quantroute/roadgraph/weights.py:100-110 | Over any run of the same updates the difference shrinks by the product of these factors |
| Weights.ConstantObservation | src/quantroute/roadgraph/weights.py:100-110 | The same observation k times leaves exactly (1 - a)^k of the initial distance |
| Weights.ConstantObservationFloored | src/quantroute/roadgraph/weights.py:100-110 | The same for an observation below free flow: the weight approaches it until the floor holds it |
| Weights.ConstantFactorClosedForm | src/quantroute/roadgraph/weights.py:93-110 | k updates with one congestion factor f >= 1 give exactly f*ff + (1 - a)^k * (c - f*ff) |
| Weights.SecondsMean | src/quantroute/roadgraph/weights.py:80-98 | A reported time is taken as it is, a speed of x km/h as the t with t * x = 3.6 * length, a factor as its multiple of free flow |
| Weights.WeightModel.BlendMoves | src/quantroute/roadgraph/weights.py:77-110 | Where an edge moves, in terms of the reports alone: the last factor counts before the last speed and that before the last time, the blanket factor only for edges nobody reported, and free flow is the floor |
| Weights.ConstantSpeedClosedForm | src/quantroute/roadgraph/weights.py:84-110 | k accepted batches that all report speed x leave exactly t + (1 - a)^k * (c - t), t being the time at that speed, but never less than free flow |
| Weights.RunEvolves | src/quantroute/roadgraph/weights.py:62-114 | In a run of updates of the whole model each edge follows its own updates only |
| Weights.RunSnoc | src/quantroute/roadgraph/weights.py:100-114 | One more update continues a run |
| Weights.RunStaysInBounds | src/quantroute/roadgraph/weights.py:110 | Every weight of every snapshot of a run stays at or above free flow and at or below the largest of its start and what was ever said about its edge |
| Weights.RunsForgetTheirStarts | src/quantroute/roadgraph/weights.py:100-110 | Two models that saw the same updates of an edge forget their different starts geometrically |
| Weights.WeightModel.constructor | src/quantroute/roadgraph/weights.py:45-52 | A new model starts at free flow, as epoch 0, in arrays of its own |
| Weights.WeightModel.Fold | src/quantroute/roadgraph/weights.py:80-98 | A batch of reports overwrites what was observed, later ones winning, or is refused at its first bad one |
| Weights.WeightModel.Blend | src/quantroute/roadgraph/weights.py:100-110 | Observed edges are averaged, unobserved ones filled if a blanket factor is given, all floored at free flow |
| Weights.WeightModel.Update | src/quantroute/roadgraph/weights.py:62-114 | An accepted update moves every edge to where its reports say (as in BlendMoves), in fresh arrays, and numbers the epoch; a rejected one changes nothing and names the first bad report; no epoch returned before is written to |
| Weights.Replay | src/quantroute/roadgraph/weights.py:62-123 | A model fed one batch after the other: the accepted batches make a run, and at the end every epoch handed out still holds the weights of its moment, consecutively numbered |
| Weights.ReplayInBounds | src/quantroute/roadgraph/weights.py:110 | Every epoch of a replay lies between free flow and what was ever said about each edge |
| Weights.ReplaysForgetTheirStarts | src/quantroute/roadgraph/weights.py:100-110 | Two models replaying the same batches end closer by the product of the surviving shares |
| Weights.WeightModel.MakeEpoch | src/quantroute/roadgraph/weights.py:118-123 | An epoch owns its copy of the values |
| Weights.EpochIsWeighting | src/quantroute/roadgraph/weights.py:110 | Every epoch may be used as edge weights |
| Weights.NoEpochBeatsFreeFlow | src/quantroute/roadgraph/weights.py:110 | Every matrix entry is at least its free-flow value |
| Holm.HolmBonferroni | src/quantroute/benchmark/stats.py:37-48 | Each p-value gets the capped running maximum of its rank, at its own place |
| Holm.AdjustedBounds | src/quantroute/benchmark/stats.py:46-47 | Adjusted values lie between the p-value and 1 |
| Holm.AdjustedMonotone | src/quantroute/benchmark/stats.py:45-47 | The adjustment preserves the order of the p-values |
| Holm.TiesDoNotMatter | src/quantroute/benchmark/stats.py:42 | The result does not depend on how the sort breaks ties |
| Holm.SignificantMeansStepDown | src/quantroute/benchmark/stats.py:100-102 | For alpha <= 1, p_adj < alpha iff every p-value up to this rank satisfies (m - rank) * p < alpha |
| Aco.ArgMin | src/quantroute/optimizers/aco.py:121 | The first index of the smallest cost |
| Aco.Construct | src/quantroute/optimizers/aco.py:158-178 | Whatever the draws, an ant visits every stop exactly once |
| Aco.WriteKeys | src/quantroute/optimizers/aco.py:141-145 | The key row of a tour is its rank keys, and sorts back to the tour |
| Aco.Population.constructor | src/quantroute/optimizers/aco.py:86-105 | Tours are the argsorts of the initial rows, the pheromone is at its maximum off the diagonal, nothing is best yet |
| Aco.Population.Evaporate | src/quantroute/optimizers/aco.py:128 | Every pheromone value keeps the share 1 - rho |
| Aco.Population.Deposit | src/quantroute/optimizers/aco.py:132-136 | A tour adds its amount in both directions along each of its legs and nowhere else |
| Aco.Population.Clip | src/quantroute/optimizers/aco.py:137 | Every value is clamped to [tau_min, tau_max] |
| Aco.Population.Reinforce | src/quantroute/optimizers/aco.py:128-137 | Evaporation, the two deposits and the clamp, for every pair |
| Aco.Population.RegisterCosts | src/quantroute/optimizers/aco.py:115-137 | The best is kept up to date, the pheromone is laid along the decoded orders of this iteration's best keys and of the best keys so far, stays symmetric and ends within its limits; a batch of the wrong size changes nothing |
| Aco.Population.Advance | src/quantroute/optimizers/aco.py:139-145 | Every new tour is a permutation and its key row sorts back to it |
| Aco.Population.InjectGlobalBest | src/quantroute/optimizers/aco.py:150-154 | Only a better outside vector is adopted, clipped, and its tour is the argsort of the clipped vector; its length is not checked, and the state stays valid iff it has one key per stop |
| Aco.LaidSymmetric | src/quantroute/optimizers/aco.py:134-136 | Deposits are symmetric |
| Aco.LaidBetweenNeighbours | src/quantroute/optimizers/aco.py:132-136 | A tour lays its amount once between stops that follow each other and nothing elsewhere |
| Aco.Population.ReinforcedMeans | src/quantroute/optimizers/aco.py:128-137 | A registration in plain terms: each pheromone value loses its evaporating share, gains deposit over cost where the best tour of the iteration passes and deposit over best cost where the best tour so far passes, and is held within its limits |

## Left out

- Rounding of floats: all arithmetic is exact, so sums do not depend on their order.
- Depots, and the constructor checks that depots and matrix nodes are known: a vehicle carries its start and end node, and the cost oracle is total.
- Range checks in the constructors of stops, vehicles, configurations and the ant population: they appear as `Valid()` preconditions. Key vectors of a population have one number per stop.
- `heapq`, `np.argsort`, `sorted` and set iteration: modelled by their contracts, the heap as a multiset whose least tuple is popped.
- Stop indices in the split: the model passes the stops in tour order instead of indices into parallel arrays.
- The repair's dictionary of lists: held as one list per vehicle position, in the order of the instance.
- The texts of violations; a violation carries its kind, amount, subject and route index.
- Random draws, clocks, `created_at`, and the moves of the populations inside a run: arbitrary inputs, which also covers the exchange between islands and warm starts.
- The probabilities of an ant's choices (alpha, beta, the heuristic matrix): any choice is allowed.
- Non-finite fitness values in the incumbent and in the ant population.
- Callbacks, the cost breakdown, the configuration hash.
- Dijkstra.Dijkstra: requires that no negative closed walk can be reached, which the code does not check; without it a search for everything never ends (`AnyWeights.EndsExactly`), and neither need a search for one node (`AnyWeights.NegativeLoopNeverEnds`).
- RoadMatrix.ShortestPath: requires non-negative weights, which the code does not check; with a negative one the early stop may answer wrongly (`AnyWeights.EarlyStopMisleads`). Every epoch has them.
- RoadMatrix.ManyToMany: requires non-negative weights for the same reason.
- RoadMatrix.BuildMatrix: requires non-negative weights for the same reason.
- Tidy.TidyNotWorse: one direction; exchanges that add lateness may be made up for by later ones. The exact conditions are those of a single exchange and of all orders of given stops.
- Repair.RepairIsIdempotent: says nothing about repairs that forced a stop; they need not be fixed points (`RepairRuns.ForcedRepairIsNotFixed`).
- The triangle inequality for metres: they follow the time-optimal path and need not satisfy it.
- Edge classes and coordinates, the traffic stream, OpenStreetMap import.
- The QPSO, PSO, QGPSO and genetic moves, the OR-Tools call, and the statistics taken from pandas and scipy.
- The service, database, command line, visualisation and file formats.
