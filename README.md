# M/M/c queue analyzer, modelled in Dafny

The analyzer answers three questions about an M/M/c queue: c identical servers, Poisson arrivals at rate λ per hour and exponential service at rate μ per hour.

- `analyze_queue` gives the steady-state metrics. These are the load ρ = λ/(cμ), the traffic intensity a = λ/μ, the probability P0 of an empty system, the Erlang C probability of waiting, the queue and system lengths Lq and L, and the waiting and sojourn times Wq and W in minutes. It also reports whether the queue is stable.
- `simulate_queue` replays one run of the queue. It generates arrivals up to a time horizon and sends each customer to the server that frees up first, then reports the waits.
- `get_state_probabilities` lists P_n, the steady-state probability of n customers in the system, for n = 0 .. max_states.

The model has five modules:

- `Outcomes` (outcomes.dfy): a `Result` type and the failures the program can produce. `InvalidParameters` and `Unstable` are the HTTP 400 rejections. `ZeroDivisionError` and `ValueError` are the exceptions Python or numpy raise on degenerate inputs.
- `Formulas` (formulas.dfy): `factorial`, `calculate_p0` and `calculate_erlang_c` over exact `real` arithmetic, with recursive `Pow` and `Factorial`. It proves that P0 and Erlang C lie strictly between 0 and 1 whenever 0 < a < c.
- `Analysis` (analysis.dfy): `analyze_queue`. It covers the parameter check, the stability branch and the metrics. It proves Little's law in the form the code computes it, plus L = Lq + a and Lq = C·ρ/(1−ρ).
- `StateProbabilities` (state_probabilities.dfy): `get_state_probabilities` as an imperative loop, proved equal to a pure specification. It proves the birth–death recurrences P_n·n = P_{n−1}·a (n ≤ c) and P_n·c = P_{n−1}·a (n > c). It also proves that the probability mass left out of the list is exactly what Erlang C and the geometric tail predict.
- `Simulation` (simulation.dfy): the arrival loop and the server-assignment loop of `simulate_queue`, as methods. The exponential samples are given as two sequences: the interarrival gaps and the service durations. The arrival loop runs over a sequence; the assignment loop updates an array of busy-until times in place. Both methods are proved equal to pure specifications, and the invariants of the scheduling pass are proved about those specifications.

Behaviour of the code where it departs from a plain reading of the endpoints:

- `simulate_queue` does not validate its parameters. With λ = 0, the computation of `1 / lam` divides by zero. A negative λ or μ makes numpy reject a negative scale (`ValueError`). With c ≤ 0, `min(range(c))` fails, but only once a customer has arrived. None of these happen when the horizon is not positive. The c and μ failures also do not happen when nobody arrives before the horizon, while a λ ≤ 0 fails on the first draw even then. The model reproduces each of these outcomes.
- `get_state_probabilities` checks only ρ ≥ 1. A zero μ or a zero c divides by zero. A negative c passes the stability check whenever ρ = λ/(cμ) < 1 (for instance with λ > 0 and μ > 0, which make ρ negative) and then fails in `factorial`, or already in `math.pow(0.0, c)` when a = 0; both raise ValueError.
- `get_state_probabilities` reports `utilization` as ρ itself. `analyze_queue` reports ρ·100.
- `factorial` is annotated as returning a float, so `Factorial` is real-valued.
- `calculate_p0` with c = 0 always divides by zero: both terms of the denominator vanish. With c = a, `c / (c - a)` divides by zero.

## Model

| member | source | states |
|---|---|---|
| Formulas.Factorial | queue_analyzer.py:38-39 | n! as a real, at least 1 |
| Formulas.Pow | queue_analyzer.py:42-43 | no contract: `math.pow(x, n)` for a natural exponent, as repeated multiplication; its positivity is `PowPositive` |
| Formulas.Term | queue_analyzer.py:42 | no contract: the series term a^k/k!; its ratio recurrence is `TermRatio` |
| Formulas.PowPositive | queue_analyzer.py:42-43 | a^n > 0 for a > 0 (by induction on n) |
| Formulas.TermRatio | queue_analyzer.py:42 | consecutive series terms satisfy (k+1)·a^(k+1)/(k+1)! = a·a^k/k! |
| Formulas.SumTermAtLeastOne | queue_analyzer.py:42 | the series Σ_{k<c} a^k/k! is at least 1 when a > 0 and c ≥ 1 (by induction on c) |
| Formulas.SumTermGrows | queue_analyzer.py:42 | for a > 0 the partial sums Σ_{k<m} a^k/k! grow with m (by induction) |
| Formulas.SumTerm | queue_analyzer.py:42 | no contract: `sum_term`, Σ_{k<c} a^k/k!; its bounds are `SumTermAtLeastOne` and `SumTermGrows` |
| Formulas.LastTerm | queue_analyzer.py:43 | no contract: `last_term`, a^c/c!·c/(c−a); its sign is in `P0DenominatorBounds` |
| Formulas.P0Denominator | queue_analyzer.py:44 | no contract: sum_term + last_term, whose reciprocal is P0; bounded by `P0DenominatorBounds` |
| Formulas.P0DenominatorBounds | queue_analyzer.py:42-44 | for 0 < a < c, sum_term ≥ 1, last_term > 0 and their sum exceeds 1 |
| Formulas.CalculateP0 | queue_analyzer.py:41-44 | c < 0 raises ValueError (in `factorial`, or already in `math.pow(0.0, c)` when a = 0); c = a and c = 0 divide by zero; a success has c ≥ 1 and is the reciprocal of sum_term + last_term |
| Formulas.P0Bounds | queue_analyzer.py:41-44 | for 0 < a < c, P0 exists and lies strictly between 0 and 1 |
| Formulas.CalculateErlangC | queue_analyzer.py:46-52 | ρ ≥ 1 gives exactly 1; for ρ < 1 it fails exactly when calculate_p0 fails, with the same error |
| Formulas.ErlangCBounds | queue_analyzer.py:46-52 | for 0 < a < c and ρ = a/c, Erlang C exists, equals last_term/(sum_term + last_term) and lies strictly between 0 and 1 |
| Formulas.ErlangCValue | queue_analyzer.py:43-52 | a^c/c!·P0/(1−a/c) is the share of last_term in the P0 denominator, and lies in (0,1) |
| Formulas.StableLoad | queue_analyzer.py:63-66 | positive rates and servers with ρ < 1 give 0 < a < c, ρ = a/c and λ < cμ |
| Analysis.AnalyzeQueue | queue_analyzer.py:55-101 | rejects exactly λ ≤ 0, μ ≤ 0 or c ≤ 0 (InvalidParameters); otherwise ρ = λ/(cμ), a = λ/μ, utilization = ρ·100 and stable ⇔ ρ < 1; the unstable answer has P0 = 0, Erlang C = 1 and infinite Lq, Wq, L, W; the stable answer satisfies `StableMetrics` |
| Analysis.StableAnalysis | queue_analyzer.py:82-101 | the stable branch: λ < cμ, the metrics are finite, P0 and Erlang C are in (0,1) and tied to the formulas, Wq = C/(cμ−λ)·60 > 0, Lq = λ·Wq/60, W = Wq + 60/μ, L = λ·W/60 |
| Analysis.Metrics | queue_analyzer.py:85-101 | no contract: Wq, Lq, W and L computed in the source's order and the stable record; its properties are `MetricsAreStable` |
| Analysis.MetricsAreStable | queue_analyzer.py:85-88 | the metric arithmetic yields a positive Wq and Little's law for Lq and L from any P0 and Erlang C in (0,1) |
| Analysis.ErlangCIsScaledP0 | queue_analyzer.py:82-83 | the Erlang C the endpoint obtains equals P0 times last_term |
| Analysis.StableIdentities | queue_analyzer.py:85-88 | every stable answer has L = Lq + a, Lq = C·ρ/(1−ρ) and W > Wq > 0 |
| Analysis.SystemLength | queue_analyzer.py:86-88 | Lq = λ·Wq/60, W = Wq + 60/μ and L = λ·W/60 give L = Lq + λ/μ and W > Wq |
| Analysis.QueueLength | queue_analyzer.py:85-86 | Wq = C/(cμ−λ)·60 and Lq = λ·Wq/60 give Lq = C·ρ/(1−ρ) |
| StateProbabilities.StateReportOf | queue_analyzer.py:141-172 | zero μ or zero c divides by zero; ρ ≥ 1 is rejected as unstable; a negative c fails in factorial; an answer has c ≥ 1, a = λ/μ, utilization = ρ < 1 and the shape `ReportShape`: max_states+1 entries with state n, P_n in closed form and max(0, n−c) waiting, entry 0 equal to P0, P0 normalising the distribution |
| StateProbabilities.GetStateProbabilities | queue_analyzer.py:141-172 | the guards and the loop over n = 0 .. max_states produce exactly `StateReportOf` |
| StateProbabilities.TailTerm | queue_analyzer.py:159 | no contract: the weight a^n/(c!·c^(n−c)) of a state with a queue; its ratio is `TailTermRatio` |
| StateProbabilities.Occupancy | queue_analyzer.py:156-159 | no contract: P_n by the two closed forms of the source; its recurrence is `OccupancyRecurrence` |
| StateProbabilities.Entry | queue_analyzer.py:161-165 | no contract: the record of state n, its probability and max(0, n−c) waiting |
| StateProbabilities.States | queue_analyzer.py:154-165 | no contract: the list for n in range(max_states + 1); `ReportShape` and `StatesRecurrence` state its shape and recurrence |
| StateProbabilities.StableReport | queue_analyzer.py:146-152 | positive rates and servers with ρ < 1 always produce an answer, with P0 in (0,1) and 0 < a < c |
| StateProbabilities.OccupancyAtZero | queue_analyzer.py:156-157 | P_0 = P0 |
| StateProbabilities.OccupancyIsTerm | queue_analyzer.py:156-159 | for n ≤ c both closed forms agree: P_n = a^n/n!·P0 |
| StateProbabilities.TailAtServers | queue_analyzer.py:157-159 | at n = c, a^c/(c!·c^0) = a^c/c! |
| StateProbabilities.OccupancyPositive | queue_analyzer.py:156-159 | P_n > 0 for a > 0 and P0 > 0 |
| StateProbabilities.OccupancyRecurrence | queue_analyzer.py:156-159 | P_n·min(n, c) = P_{n−1}·a for every n ≥ 1 |
| StateProbabilities.OccupancyBelow | queue_analyzer.py:157 | P_n·n = P_{n−1}·a for 1 ≤ n ≤ c |
| StateProbabilities.OccupancyAbove | queue_analyzer.py:159 | P_n·c = P_{n−1}·a for n > c |
| StateProbabilities.TailTermRatio | queue_analyzer.py:159 | consecutive tail weights satisfy c·a^n/(c!·c^(n−c)) = a·a^(n−1)/(c!·c^(n−1−c)) |
| StateProbabilities.StatesRecurrence | queue_analyzer.py:154-165 | in the listed states, every probability is the previous one times a/n below c and times a/c from c on |
| StateProbabilities.EntryIsTerm | queue_analyzer.py:157 | listed entry n ≤ c holds a^n/n!·P0 |
| StateProbabilities.MassBelowServers | queue_analyzer.py:154-157 | the first m ≤ c listed probabilities add up to P0·Σ_{k<m} a^k/k! (by induction on m) |
| StateProbabilities.LeftAtServers | queue_analyzer.py:41-44 | the probability not listed among states 0..c−1 is last_term·P0 |
| StateProbabilities.WaitingMass | queue_analyzer.py:46-52 | the probability of c or more customers is Erlang C |
| StateProbabilities.LastTermProduct | queue_analyzer.py:43 | last_term·(c − a) = a^c/c!·c |
| StateProbabilities.GapAtServers | queue_analyzer.py:154-159 | the mass from state c on is P_c·c/(c−a) |
| StateProbabilities.GeometricEntries | queue_analyzer.py:159 | from state c on, the listed probabilities form a geometric series of ratio a/c |
| StateProbabilities.GeometricTail | queue_analyzer.py:159 | in a geometric tail of ratio a/c, the mass from state m on stays P_m·c/(c−a) (by induction on m) |
| StateProbabilities.TruncatedMass | queue_analyzer.py:154-165 | for every listed m ≥ c, the probability of m or more customers is P_m·c/(c−a) |
| StateProbabilities.ListedMassBelowOne | queue_analyzer.py:154-165 | for a stable load, the listed probabilities add up to strictly less than 1, however many states are listed (before or past state c) |
| StateProbabilities.MassGrows | queue_analyzer.py:154-165 | for a stable load, every further listed state adds positive probability: a longer prefix has strictly more mass (by induction) |
| Simulation.GenerateArrivals | queue_analyzer.py:110-116 | the arrival loop yields exactly `Arrivals(draws, horizon)` |
| Simulation.ArrivalsFrom | queue_analyzer.py:112-116 | no contract: the arrivals from clock t on, keeping each running sum below the horizon and stopping at the first that is not; characterised by `ArrivalsCharacterised` |
| Simulation.Arrivals | queue_analyzer.py:110-116 | no contract: the arrivals from clock 0 |
| Simulation.ArrivalsCharacterised | queue_analyzer.py:110-116 | arrival k is the clock plus the first k+1 gaps and is below the horizon; there are no more arrivals than gaps; if the gaps did not run out, the next gap carries the clock to or past the horizon and is discarded (by induction) |
| Simulation.ArrivalsIncreasing | queue_analyzer.py:112-116 | with positive gaps, arrivals are after the start and strictly increasing (by induction) |
| Simulation.EarliestFree | queue_analyzer.py:122 | the chosen server is a valid index |
| Simulation.EarliestFreeIsFirstMinimum | queue_analyzer.py:122 | the chosen server's busy-until time is minimal, and every lower index is strictly later (Python's `min` keeps the first minimum) |
| Simulation.Assign | queue_analyzer.py:122-128 | one dispatch picks a valid server and keeps the number of servers |
| Simulation.AssignChoosesEarliest | queue_analyzer.py:122-128 | one dispatch picks the first argmin; start = max(arrival, busy-until), so start ≥ both and wait = start − arrival ≥ 0; only the chosen slot changes, to start + duration; with a non-negative duration no slot decreases |
| Simulation.ScheduleOf | queue_analyzer.py:118-128 | after k customers there are c busy-until times and k waits |
| Simulation.AssignServers | queue_analyzer.py:118-128 | the loop over arrivals, updating the busy-until array in place, records exactly the waits of `ScheduleOf` |
| Simulation.ScheduleNext | queue_analyzer.py:121-128 | one pass of the loop body turns the schedule after k customers into the schedule after k+1 |
| Simulation.WaitsNonNegative | queue_analyzer.py:123-125 | every recorded wait is ≥ 0 (by induction on the customers) |
| Simulation.BusyNeverDecreases | queue_analyzer.py:118-128 | with non-negative durations, no busy-until time ever decreases from one customer to a later one |
| Simulation.FirstCustomersServedAtOnce | queue_analyzer.py:118-128 | with positive durations the first k ≤ c customers occupy servers 0..k−1 in order, start without waiting, and leave servers k..c−1 idle |
| Simulation.MaxOf | queue_analyzer.py:131 | the maximum is at least every wait |
| Simulation.MaxAttained | queue_analyzer.py:131 | the maximum is one of the waits |
| Simulation.SumBounds | queue_analyzer.py:130 | waits between 0 and m sum to between 0 and n·m |
| Simulation.Mean | queue_analyzer.py:130 | no contract: the mean of the waits, for `np.mean`; bounded by `MeanBounds` |
| Simulation.MeanBounds | queue_analyzer.py:130-131 | for non-negative waits, 0 ≤ mean ≤ maximum |
| Simulation.Summarise | queue_analyzer.py:130-138 | no contract: the report, with avg and max in minutes (0 with no waits) and the first min(10, n) waits in minutes; its facts are in `SimulationFacts` |
| Simulation.SimulationOf | queue_analyzer.py:103-139 | no contract: the whole run, with the source's failures in its order; characterised by `SimulationFacts` |
| Simulation.Simulate | queue_analyzer.py:103-139 | the endpoint (guards, arrival loop, assignment loop, summary) produces exactly `SimulationOf` |
| Simulation.SimulationFacts | queue_analyzer.py:103-139 | a run succeeds exactly when λ > 0 (for a positive horizon) and c > 0, μ > 0 (once someone arrives); then served = arrivals = the number of arrivals, 0 ≤ avg ≤ max, both 0 with no arrivals, and the sample holds min(10, n) non-negative waits |

## Left out

- The web layer is not modelled: the FastAPI app, CORS middleware, routes, pydantic models, `uvicorn.run` and the `root` endpoint. An `HTTPException` with status 400 becomes `Failure(InvalidParameters)` or `Failure(Unstable)`.
- `np.random.exponential` is not modelled. The simulation takes the interarrival gaps and the service durations as sequences, standing for draws with scales 1/λ and 1/μ.
- Simulation.SimulationOf: if the gap sequence runs out before the horizon, the arrival stream ends there. The source would keep drawing.
- Simulation.SimulationOf requires one service duration per arrival.
- Floating point is not modelled: rounding, overflow of `math.pow` and `math.factorial` for large c, NaN, and `float('inf')` as an input. All arithmetic is exact over `real`. An infinite metric in the output is the `Infinity` variant of `Extended`.
- A `simulation_time` of `None`, which the request schema allows, is left out; the horizon is always a number.
- `np.mean` and `np.max` are not called. `Mean` and `MaxOf` define them directly over the waits.
- Simulation.Summarise: the wait sample is modelled only as the first min(10, n) waits converted to minutes.
- The request defaults `max_states = 20` and `simulation_time = 100.0` are not modelled: the model always takes both as explicit arguments.
