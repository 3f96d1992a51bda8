# Simulated annealing for the travelling salesman — a Dafny model

This project models the search engine of a simulated-annealing solver for the
travelling salesman problem, in three parts that follow its three Rust files:

- **Tour model** (`salesman.dfy`, module `Salesman`, from `src/salesman.rs`).
  - A `City` is an id plus two coordinates.
  - An `Itinerary` is the cities in visiting order plus a cached cost.
  - The cost is the Manhattan length of the closed tour, wrap-around edge included.
  - The move operator (`generate_new`) draws two distinct indices with a rejection loop. It reverses the segment between them on a copy, using the in-place two-index swap loop over an `array`, and then recomputes the cost. This is a 2-opt move.
  - The loops of the source stay loops: `Cost`, `GenerateSwapIndices`, `ReverseSegment` and `NewItinerary`. Each is proved against a specification function: `TourCost`, `SwapIndices` or `ReverseRange`.
- **Metropolis sampler** (`metropolis.dfy`, module `Metropolis`, from `src/metropolis.rs`).
  - The `Simulatable` trait is a record of three function values: `pdf`, `generate` and `accept`.
  - `Sample` is the sampling loop. It is proved equal to the recursive specification `Chain` and keeps every probability equal to `pdf` of its value.
  - A rejected proposal repeats the previous sample; it never shortens the chain.
- **Annealing schedule** (`annealing.dfy`, module `Annealing`, from `src/annealing.rs`).
  - The `Simulatable<Itinerary>` implementation is the functions `Pdf`, `Generate` and `Accept`, bundled by `Instance`.
  - `Schedule` is a class with the six fields of the Rust struct. Its methods update `itinerary` and `currentTemperature` in place.
  - `Run` is the outer `while` loop. Each iteration is `Level`: sample a chain, keep its last value, append a `(temperature, cost)` record, and lower the temperature by one step.
  - `Run` is proved against the recursive specifications `Anneal` (the itinerary after k levels), `Records` (the records of the first k levels) and `Temperature`. It is also proved to perform exactly `Levels` iterations: none if t0 is already at or below the minimum, else ceil((t0 - min) / step).

Randomness, the platform's exponential and the city coordinates are inputs:

- The sampler reads a stream `draws: nat -> R`. `draws(0)` seeds the chain and `draws(i)` drives step i.
- One annealing draw (`Draw`) is a finite supply of raw index pairs for the rejection loop, plus the acceptance cutoff. In the source the cutoff lies in [0, 1); the model leaves it unconstrained. Each raw index is reduced modulo the tour length, which stands for `gen_range(0..len)`. Level k of `run` reads the stream `draws(k)`.
- `E.powf(-1.0 * e / t)` is `boltzmann(e, t)`, a function parameter. Only `EqualCostMoveAccepted` assumes anything of its values: that a zero increase has weight one.
- `Itinerary::new` takes the coordinates of city k as `coords(k)`.
- Every `f64` is a `real`.

Points where the model follows the code as written:

- The code validates no configuration. `Schedule::new` accepts any step and any temperatures, and it checks no number of cities.
  - `Run` requires exactly the condition under which its loop ends: a positive step, or a start already at the minimum. `NonPositiveStepNeverCools` shows that the loop guard never fails otherwise.
  - Construction requires at least one city. With no cities, `Itinerary::new` panics on the empty coordinate range `1.0..=0.0` at `src/salesman.rs:25`; `cost` would also panic on `cities[0]`.
  - With fewer than two cities the rejection loop can never return a pair (`SwapIndicesBelowTwo`). With one city the source loops forever; with none, `gen_range(0..0)` panics.
- `sample` returns max(n, 1) values, because the seed is always pushed. Hence `sample_size = 0` still yields one value.
- `annealing.rs:42-43` reads the new itinerary as `values[values.len() - 1].0`, as if `sample` returned a vector of pairs. `metropolis.rs:18` returns a pair of vectors, so the two do not fit together. The model takes the last element of the returned `values` sequence.

## Model

| member | source | states |
|---|---|---|
| Salesman.Manhattan | src/salesman.rs:71-85 | the distance is non-negative, and it is zero exactly when the two cities share both coordinates (so the distance from a city to itself is zero) |
| Salesman.ManhattanSymmetric | src/salesman.rs:71-85 | the distance from a to b equals the distance from b to a |
| Salesman.ManhattanTriangle | src/salesman.rs:71-85 | the distance obeys the triangle inequality |
| Salesman.PathCostIsSum | src/salesman.rs:57-59 | extending the prefix by city i adds exactly the leg from city i-1 to city i, which is what one loop iteration adds |
| Salesman.Cost | src/salesman.rs:54-62 | for a non-empty tour, the running-sum loop returns the wrap-around edge plus the sum of all consecutive legs, and the result is non-negative |
| Salesman.AverageStepLength | src/salesman.rs:64-66 | the average leg times the number of cities gives back the cached cost, and it is non-negative for a consistent tour |
| Salesman.SwapIndicesInRange | src/salesman.rs:88-101 | a pair that the rejection loop returns is ordered and distinct, with both indices below len |
| Salesman.SwapIndicesFirstDistinct | src/salesman.rs:89-99 | the loop returns the first draw whose indices differ, ordered smaller first; every earlier draw was rejected for equal indices |
| Salesman.SwapIndicesBelowTwo | src/salesman.rs:88-101 | with fewer than two cities no pair is ever returned: with one city every draw is rejected (the source loops forever), and with none the source panics on the empty range |
| Salesman.GenerateSwapIndices | src/salesman.rs:88-101 | the loop over the draws returns what the rejection specification returns, and any pair it returns satisfies i < j < len |
| Salesman.ReverseRangeAt | src/salesman.rs:40-46 | after reversing [lo, hi), position k holds s[lo + hi - 1 - k] inside the segment and keeps s[k] outside it |
| Salesman.SwapPermutes | src/salesman.rs:41-43 | exchanging two positions keeps the multiset of elements |
| Salesman.ReverseRangeStep | src/salesman.rs:40-46 | one pass of the swap loop keeps the multiset and leaves the inner segment still to be reversed |
| Salesman.ReverseRangePermutes | src/salesman.rs:40-46 | reversing a segment keeps the multiset of cities |
| Salesman.MoveIsTour | src/salesman.rs:36-51 | the 2-opt move keeps the length and the multiset of cities, and its cached cost is the cost of the new order |
| Salesman.MoveReverses | src/salesman.rs:40-46 | the move puts old[i + j - k] at every position k of [i, j] and leaves every position outside [i, j] unchanged |
| Salesman.ProposalIsTour | src/salesman.rs:36-51 | a proposal is a permutation of the input's cities, of the same length, with a consistent cached cost |
| Salesman.ReverseSegment | src/salesman.rs:40-46 | the in-place two-index loop leaves the array equal to the old contents with positions i..j reversed |
| Salesman.GenerateNew | src/salesman.rs:36-51 | it returns the 2-opt move on the drawn indices, computed on a copy; the result is a permutation of the input's cities with cached cost equal to its cost |
| Salesman.NewItinerary | src/salesman.rs:21-32 | it builds n cities with ids 0..n-1 in order at the given coordinates, and the cached cost is the tour's cost (non-negative) |
| Metropolis.Chain | src/metropolis.rs:18-35 | the chain has max(n, 1) entries, because the seed is always present |
| Metropolis.ChainShape | src/metropolis.rs:21-31 | entry 0 is generate(None); each later entry i is the proposal from entry i-1 if accepted, else a repeat of entry i-1 |
| Metropolis.ChainPrefix | src/metropolis.rs:23-32 | a longer chain over the same draws extends a shorter one, so rejection never cuts a chain short |
| Metropolis.ChainInvariant | src/metropolis.rs:23-32 | a property of the seed that every proposal keeps holds of every sample, because rejection only repeats a sample |
| Metropolis.ChainLast | src/metropolis.rs:18-35 | the last entry of the chain is the state reached by stepping from the seed n - 1 times |
| Metropolis.Sample | src/metropolis.rs:18-35 | it returns two sequences of equal length max(n, 1); the values are the chain; each probability is pdf of the value beside it |
| Annealing.ChainWeightIsTrueCost | src/annealing.rs:106-108 | every sample of a chain seeded with a consistent tour is consistent, and its weight is boltzmann of the true cost of its city order at the chain's temperature |
| Annealing.GenerateCases | src/annealing.rs:110-115 | generate(None) is the schedule's itinerary, and generate(Some(cur)) is cur's 2-opt move; in every case the result tours the same cities with a consistent cost |
| Annealing.Accept | src/annealing.rs:117-136 | the seed is always accepted, and a cheaper proposal is always accepted; otherwise it is accepted exactly when the cutoff lies below the Boltzmann weight of the cost increase |
| Annealing.ImprovingMoveAccepted | src/annealing.rs:119-122 | a move that lowers the cost is accepted for every cutoff drawn |
| Annealing.EqualCostMoveAccepted | src/annealing.rs:124-130 | when the Boltzmann weight of a zero increase is one, a move that keeps the cost is accepted for every cutoff in [0, 1) |
| Annealing.AcceptMonotoneInCutoff | src/annealing.rs:124-132 | a move accepted at one cutoff is accepted at every lower cutoff |
| Annealing.RecordAt | src/annealing.rs:40-45 | record k holds the temperature at which level k ran and the cost kept at the end of that level |
| Annealing.RecordsStep | src/annealing.rs:44-45 | consecutive records are exactly one temperature step apart |
| Annealing.TourOfTransitive | src/annealing.rs:42-43 | being a tour of the same cities is transitive across levels |
| Annealing.ChainIsTour | src/annealing.rs:105-115 | every sample of a chain at fixed temperature is a permutation of the seed's cities with a consistent cost |
| Annealing.Ceil | src/annealing.rs:41-45 | the least integer not below x; the helper that defines Levels, the number of iterations of the loop |
| Annealing.TemperatureClosedForm | src/annealing.rs:45 | k decrements lower the temperature by exactly k steps |
| Annealing.LevelsExact | src/annealing.rs:41-45 | for a positive step, the loop guard holds after k decrements exactly when k is below the number of levels |
| Annealing.LevelBound | src/annealing.rs:41-45 | there is a bound on the number of levels: zero when the start is at or below the minimum, and no level at or beyond it is above the minimum when the step is positive |
| Annealing.LevelsCount | src/annealing.rs:41-45 | if the first m temperatures are above the minimum and the m-th is not, m is the number of levels |
| Annealing.NonPositiveStepNeverCools | src/annealing.rs:41-45 | with a non-positive step and a start above the minimum, the loop guard never fails, so run does not terminate |
| Annealing.ScenarioTenLevels | src/annealing.rs:41-45 | starting at 10.0 with minimum 0.1 and step 1.0, run makes ten iterations |
| Annealing.LevelIsTour | src/annealing.rs:42-43 | the itinerary kept by one level is again a tour of the original cities with a consistent cost |
| Annealing.AnnealStepIsTour | src/annealing.rs:41-45 | one more level keeps the itinerary a tour of the original cities |
| Annealing.AnnealIsTour | src/annealing.rs:37-56 | after any number of levels the itinerary visits exactly the original cities, and its cached cost is its cost |
| Annealing.Schedule.constructor | src/annealing.rs:21-35 | it stores the parameters unchanged and sets the current temperature to the start temperature; the tour has numCities cities, ids in order, and a consistent cost |
| Annealing.Schedule.Level | src/annealing.rs:42-45 | one iteration keeps the last sample as the itinerary, appends the record (temperature before the decrement, new cost), and lowers the temperature by exactly one step |
| Annealing.Schedule.Run | src/annealing.rs:37-56 | it ends with the temperature at or below the minimum after exactly Levels iterations; it returns the final itinerary, which tours the original cities with a consistent cost; record k holds temperature t0 - k * step, above the minimum, and the cost kept by level k |

## Left out

- Plotting (`plot_scatter`, `plot_path`, SVG output) and the progress `println!` in `run`: these are output only, and nothing computed depends on them.
- The command-line front end in `src/main.rs`: it is argument parsing around `Schedule::new` and `run`. `src/main.rs` is not part of this model.
- The `Exponential` demo distribution in `src/metropolis.rs`: it is an example unrelated to the solver.
- `thread_rng`, `Uniform`, `gen_range` and the `sqrt` bound on coordinates: these are replaced by injected draws and coordinates. The model does not state that the draws are uniform, that the acceptance cutoff lies in [0, 1) (it is an unconstrained real), or that coordinates lie in [1, sqrt(n)].
- IEEE-754 rounding, NaN and infinities: every `f64` is a real. The exact count of levels holds over the reals only.
- The value of `E.powf`: it is the parameter `boltzmann`. `EqualCostMoveAccepted` assumes of it only that a zero increase has weight one.
- The order in which the source consumes random numbers: each annealing step reads its own `Draw`, and `generate` and `accept` read different parts of it.
- Salesman.SwapIndices, Salesman.GenerateSwapIndices: an endless run of equal draws, the source's infinite loop, becomes `None` when the finite supply of draws runs out. For len == 0 the source panics in `gen_range(0..0)`; the model returns `None` there too.
- Annealing.Generate: when the supply of index draws runs out without a distinct pair, the proposal is the current tour unchanged. The source would keep drawing instead (with one city it would never return; with none it would panic).
- Salesman.AverageStepLength: requires a non-empty tour, where the source divides by zero and returns NaN or infinity.
- Salesman.Cost: requires a non-empty tour, because the source panics on `cities[0]` for an empty one.
- Salesman.NewItinerary, Annealing.Schedule.constructor: require at least one city, because with none `Itinerary::new` panics on the empty coordinate range at `src/salesman.rs:25` (and `cost` would panic on `cities[0]` after it).
- Annealing.Schedule.Run: requires a positive step or a start at or below the minimum. In every other case the source loops forever (`NonPositiveStepNeverCools`).
- Annealing.Pdf: its only content is the weight `boltzmann(cost, temperature)`, so it carries no contract of its own. `Annealing.ChainWeightIsTrueCost` states that for every sample of a chain this weight is the one of its true tour cost, and `Metropolis.Sample` states that every recorded probability is `pdf` of its value.
- The `Clone` impls: values in Dafny are immutable, so a copy is the value itself. `generate_new` leaves its input unchanged by construction.
