/**
 * The annealing schedule: the tour model bound to the sampler with a
 * temperature-dependent acceptance rule, and the outer loop that lowers the
 * temperature by a fixed step and keeps the last sample of every chain.
 *
 * The platform's exponential is not modelled.  Every weight the source
 * computes as E.powf(-1.0 * e / t) is `boltzmann(e, t)`, a function value
 * the caller supplies.  Only EqualCostMoveAccepted assumes anything of its
 * values: that a zero increase has weight one.
 */
module Annealing {
  import opened Wrappers
  import opened Salesman
  import opened Metropolis

  /** What one step of the annealing chain draws: index pairs for the move, a cutoff for acceptance. */
  datatype Draw = Draw(indices: seq<(nat, nat)>, cutoff: real)

  /** `pdf`: the Boltzmann weight of a tour's cached cost at the given temperature. */
  function Pdf(boltzmann: (real, real) -> real, temperature: real, randv: Itinerary): real
  {
    boltzmann(randv.cost, temperature)
  }

  /**
   * `generate`: the seed of a chain is the schedule's current tour; a
   * proposal is a 2-opt move of the current sample.
   */
  function Generate(baseline: Itinerary, current: Option<Itinerary>, d: Draw): Itinerary {
    match current
    case None => baseline
    case Some(cur) =>
      match Proposal(cur, d.indices)
      case Some(p) => p
      case None => cur
  }

  /**
   * What `generate` returns: the baseline as the seed, the 2-opt proposal
   * when the index draws yield one, and in every case a tour of the same
   * cities whose cached cost stays consistent.
   */
  lemma GenerateCases(baseline: Itinerary, current: Option<Itinerary>, d: Draw)
    ensures current.None? ==> Generate(baseline, current, d) == baseline
    ensures current.Some? && Proposal(current.value, d.indices).Some? ==>
      Generate(baseline, current, d) == Proposal(current.value, d.indices).value
    ensures current.Some? && Proposal(current.value, d.indices).None? ==>
      Generate(baseline, current, d) == current.value
    ensures current.Some? ==>
      multiset(Generate(baseline, current, d).cities) == multiset(current.value.cities)
      && |Generate(baseline, current, d).cities| == |current.value.cities|
    ensures current.Some? && Consistent(current.value) ==> Consistent(Generate(baseline, current, d))
  {
    if current.Some? && Proposal(current.value, d.indices).Some? {
      ProposalIsTour(current.value, d.indices);
    }
  }

  /**
   * `accept`: the seed is always accepted; a cheaper proposal is always
   * accepted; otherwise the proposal is accepted when the cutoff (drawn from
   * [0, 1) in the source, unconstrained in the model) lies below the
   * Boltzmann weight of the cost increase.
   */
  function Accept(boltzmann: (real, real) -> real, temperature: real,
                  current: Option<Itinerary>, proposed: Itinerary, cutoff: real): (r: bool)
    ensures current.None? ==> r
    ensures current.Some? && proposed.cost < current.value.cost ==> r
    ensures current.Some? && proposed.cost >= current.value.cost ==>
      (r <==> cutoff < boltzmann(proposed.cost - current.value.cost, temperature))
  {
    match current
    case None => true
    case Some(cur) =>
      var (newCost, oldCost) := (proposed.cost, cur.cost);
      if newCost < oldCost then true
      else cutoff < boltzmann(newCost - oldCost, temperature)
  }

  /** A move that lowers the cost is accepted whatever the cutoff drawn. */
  lemma ImprovingMoveAccepted(boltzmann: (real, real) -> real, temperature: real, cur: Itinerary, proposed: Itinerary)
    requires proposed.cost < cur.cost
    ensures forall cutoff :: Accept(boltzmann, temperature, Some(cur), proposed, cutoff)
  {
  }

  /**
   * A move that keeps the cost is accepted for every cutoff in [0, 1),
   * where the weight of a zero increase is exactly one.
   */
  lemma EqualCostMoveAccepted(boltzmann: (real, real) -> real, temperature: real, cur: Itinerary, proposed: Itinerary)
    requires proposed.cost == cur.cost && boltzmann(0.0, temperature) == 1.0
    ensures forall cutoff :: 0.0 <= cutoff < 1.0 ==> Accept(boltzmann, temperature, Some(cur), proposed, cutoff)
  {
  }

  /** Acceptance is monotone in the cutoff: a move accepted at one cutoff is accepted at every lower one. */
  lemma AcceptMonotoneInCutoff(boltzmann: (real, real) -> real, temperature: real,
                               current: Option<Itinerary>, proposed: Itinerary, low: real, high: real)
    requires low <= high && Accept(boltzmann, temperature, current, proposed, high)
    ensures Accept(boltzmann, temperature, current, proposed, low)
  {
  }

  /** The schedule at a given itinerary and temperature, as a distribution for the sampler. */
  function Instance(boltzmann: (real, real) -> real, itinerary: Itinerary, temperature: real): Simulatable<Itinerary, Draw> {
    Simulatable(
      randv => Pdf(boltzmann, temperature, randv),
      (current, d: Draw) => Generate(itinerary, current, d),
      (current, proposed, d: Draw) => Accept(boltzmann, temperature, current, proposed, d.cutoff))
  }

  /**
   * The weight the sampler gives every sample of a chain seeded with a
   * consistent tour is the Boltzmann weight of that tour's true cost: the
   * cached cost `pdf` reads is the cost of the tour's own order.
   */
  lemma ChainWeightIsTrueCost(boltzmann: (real, real) -> real, baseline: Itinerary, temperature: real,
                              n: nat, draws: nat -> Draw)
    requires Consistent(baseline)
    ensures forall i :: 0 <= i < |Chain(Instance(boltzmann, baseline, temperature), n, draws)| ==>
      var x := Chain(Instance(boltzmann, baseline, temperature), n, draws)[i];
      Consistent(x) && Instance(boltzmann, baseline, temperature).pdf(x) == boltzmann(TourCost(x.cities), temperature)
  {
    ChainIsTour(boltzmann, baseline, temperature, n, draws);
  }

  /**
   * The records `run` reports for its first m levels: the temperature at
   * which each level ran and the cost of the itinerary it kept.
   */
  function Records(boltzmann: (real, real) -> real, baseline: Itinerary, t0: real, step: real,
                   sampleSize: nat, draws: nat -> nat -> Draw, m: nat): (r: seq<(real, real)>)
    ensures |r| == m
  {
    if m == 0 then []
    else Records(boltzmann, baseline, t0, step, sampleSize, draws, m - 1)
         + [(Temperature(t0, step, m - 1), Anneal(boltzmann, baseline, t0, step, sampleSize, draws, m).cost)]
  }

  /** Record k holds the temperature of level k and the cost kept at its end. */
  lemma {:induction false} RecordAt(boltzmann: (real, real) -> real, baseline: Itinerary, t0: real, step: real,
                                    sampleSize: nat, draws: nat -> nat -> Draw, m: nat, k: nat)
    requires k < m
    ensures Records(boltzmann, baseline, t0, step, sampleSize, draws, m)[k]
         == (Temperature(t0, step, k), Anneal(boltzmann, baseline, t0, step, sampleSize, draws, k + 1).cost)
  {
    var prev := Records(boltzmann, baseline, t0, step, sampleSize, draws, m - 1);
    var last := (Temperature(t0, step, m - 1), Anneal(boltzmann, baseline, t0, step, sampleSize, draws, m).cost);
    assert Records(boltzmann, baseline, t0, step, sampleSize, draws, m) == prev + [last];
    if k < m - 1 {
      RecordAt(boltzmann, baseline, t0, step, sampleSize, draws, m - 1, k);
      assert (prev + [last])[k] == prev[k];
    } else {
      assert k == m - 1 && (prev + [last])[k] == last;
    }
  }

  /** Consecutive records are one temperature step apart. */
  lemma RecordsStep(boltzmann: (real, real) -> real, baseline: Itinerary, t0: real, step: real,
                    sampleSize: nat, draws: nat -> nat -> Draw, m: nat, k: nat)
    requires k + 1 < m
    ensures Records(boltzmann, baseline, t0, step, sampleSize, draws, m)[k + 1].0
         == Records(boltzmann, baseline, t0, step, sampleSize, draws, m)[k].0 - step
  {
    RecordAt(boltzmann, baseline, t0, step, sampleSize, draws, m, k);
    RecordAt(boltzmann, baseline, t0, step, sampleSize, draws, m, k + 1);
  }

  /** x visits the same cities as base, as many of them, and its cached cost is its cost. */
  predicate TourOf(x: Itinerary, base: Itinerary) {
    multiset(x.cities) == multiset(base.cities) && |x.cities| == |base.cities| && Consistent(x)
  }

  lemma TourOfTransitive(a: Itinerary, b: Itinerary, c: Itinerary)
    requires TourOf(a, b) && TourOf(b, c)
    ensures TourOf(a, c)
  {
  }

  /** Every sample of an annealing chain is a tour of the seed's cities. */
  lemma ChainIsTour(boltzmann: (real, real) -> real, baseline: Itinerary, temperature: real, n: nat, draws: nat -> Draw)
    requires Consistent(baseline)
    ensures forall i :: 0 <= i < |Chain(Instance(boltzmann, baseline, temperature), n, draws)| ==>
      TourOf(Chain(Instance(boltzmann, baseline, temperature), n, draws)[i], baseline)
  {
    var s := Instance(boltzmann, baseline, temperature);
    var P := (x: Itinerary) => TourOf(x, baseline);
    forall x, r | P(x)
      ensures P(s.generate(Some(x), r))
    {
      assert s.generate(Some(x), r) == Generate(baseline, Some(x), r);
      GenerateCases(baseline, Some(x), r);
    }
    ChainInvariant(s, n, draws, P);
  }

  /** The least integer not below x. */
  function Ceil(x: real): (c: int)
    ensures c as real - 1.0 < x <= c as real
  {
    -((-x).Floor)
  }

  /**
   * How many times the outer loop runs from temperature t0: none if t0 is
   * already at or below the minimum, else ceil((t0 - min) / step).
   */
  function Levels(t0: real, minTemperature: real, step: real): nat
    requires step > 0.0 || t0 <= minTemperature
  {
    if t0 <= minTemperature then 0 else Ceil((t0 - minTemperature) / step)
  }

  /** The temperature after k decrements of `step` from t0. */
  function Temperature(t0: real, step: real, k: nat): real {
    if k == 0 then t0 else Temperature(t0, step, k - 1) - step
  }

  /** k decrements lower the temperature by exactly k steps. */
  lemma {:induction false} TemperatureClosedForm(t0: real, step: real, k: nat)
    ensures Temperature(t0, step, k) == t0 - k as real * step
  {
    if k > 0 {
      TemperatureClosedForm(t0, step, k - 1);
    }
  }

  /** Multiplying by a positive factor keeps a strict order. */
  lemma ScaleStrict(a: real, b: real, c: real)
    requires c > 0.0
    ensures a < b <==> a * c < b * c
  {
    if a < b {
      assert (b - a) * c > 0.0;
    } else {
      assert (a - b) * c >= 0.0;
    }
  }

  /** After k decrements the loop guard still holds exactly when k < Levels. */
  lemma LevelsExact(t0: real, minTemperature: real, step: real, k: nat)
    requires step > 0.0
    ensures Temperature(t0, step, k) > minTemperature <==> k < Levels(t0, minTemperature, step)
  {
    TemperatureClosedForm(t0, step, k);
    var x := (t0 - minTemperature) / step;
    assert x * step == t0 - minTemperature;
    ScaleStrict(k as real, x, step);
    if t0 <= minTemperature {
      assert k as real * step >= 0.0;
    } else {
      var c := Ceil(x);
      assert Levels(t0, minTemperature, step) == c;
      if k < c {
        assert k as real <= c as real - 1.0;
        assert k as real < x;
        assert k as real * step < x * step;
        assert t0 - k as real * step > minTemperature;
      }
    }
  }

  /**
   * A bound on the number of levels that does not expose its closed form:
   * no level at or beyond n is above the minimum when the step is positive,
   * and there is no level at all when the start is already at the minimum.
   */
  lemma LevelBound(t0: real, minTemperature: real, step: real) returns (n: nat)
    requires step > 0.0 || t0 <= minTemperature
    ensures t0 <= minTemperature ==> n == 0
    ensures step > 0.0 ==> forall k: nat :: Temperature(t0, step, k) > minTemperature ==> k < n
  {
    n := Levels(t0, minTemperature, step);
    if step > 0.0 {
      forall k: nat | Temperature(t0, step, k) > minTemperature
        ensures k < n
      {
        LevelsExact(t0, minTemperature, step, k);
      }
    }
  }

  /**
   * The loop of `run` stops after exactly Levels steps: if the first m
   * temperatures are above the minimum and the m-th is not, m is the
   * number of levels.
   */
  lemma LevelsCount(t0: real, minTemperature: real, step: real, m: nat)
    requires step > 0.0 || t0 <= minTemperature
    requires Temperature(t0, step, m) <= minTemperature
    requires forall k: nat :: k < m ==> Temperature(t0, step, k) > minTemperature
    ensures m == Levels(t0, minTemperature, step)
  {
    assert m > 0 ==> Temperature(t0, step, 0) > minTemperature;
    if step > 0.0 {
      LevelsExact(t0, minTemperature, step, m);
      if m > 0 {
        LevelsExact(t0, minTemperature, step, m - 1);
      }
    }
  }

  /** With a step that is not positive and a start above the minimum, the loop guard never fails. */
  lemma NonPositiveStepNeverCools(t0: real, minTemperature: real, step: real, k: nat)
    requires step <= 0.0 && t0 > minTemperature
    ensures Temperature(t0, step, k) > minTemperature
  {
    TemperatureClosedForm(t0, step, k);
    assert k as real * step <= 0.0;
  }

  /** Start 10.0, minimum 0.1, step 1.0: ten temperature levels. */
  lemma ScenarioTenLevels()
    ensures Levels(10.0, 0.1, 1.0) == 10
  {
    assert (-(9.9)).Floor == -10;
  }

  /**
   * The itinerary after k levels of `run`: level k samples a chain at
   * temperature t0 - k * step from the previous level's itinerary and keeps
   * its last sample.
   */
  function Anneal(boltzmann: (real, real) -> real, baseline: Itinerary, t0: real, step: real,
                  sampleSize: nat, draws: nat -> nat -> Draw, k: nat): Itinerary
  {
    if k == 0 then baseline
    else
      var prev := Anneal(boltzmann, baseline, t0, step, sampleSize, draws, k - 1);
      LevelResult(boltzmann, prev, Temperature(t0, step, k - 1), sampleSize, draws(k - 1))
  }

  /** One temperature level: the last sample of a chain seeded with `itinerary`. */
  function LevelResult(boltzmann: (real, real) -> real, itinerary: Itinerary, temperature: real,
                       sampleSize: nat, draws: nat -> Draw): Itinerary
  {
    Last(Instance(boltzmann, itinerary, temperature), sampleSize, draws)
  }

  /** The last sample of a chain started from a tour of `baseline` is again a tour of `baseline`. */
  lemma LevelIsTour(boltzmann: (real, real) -> real, baseline: Itinerary, prev: Itinerary, temperature: real,
                    n: nat, draws: nat -> Draw)
    requires TourOf(prev, baseline)
    ensures TourOf(LevelResult(boltzmann, prev, temperature, n, draws), baseline)
  {
    var chain := Chain(Instance(boltzmann, prev, temperature), n, draws);
    ChainIsTour(boltzmann, prev, temperature, n, draws);
    ChainLast(Instance(boltzmann, prev, temperature), n, draws);
    TourOfTransitive(chain[|chain| - 1], prev, baseline);
  }

  /** One more level keeps the schedule's itinerary a tour of the baseline. */
  lemma AnnealStepIsTour(boltzmann: (real, real) -> real, baseline: Itinerary, t0: real, step: real,
                         sampleSize: nat, draws: nat -> nat -> Draw, k: nat)
    requires k > 0
    requires TourOf(Anneal(boltzmann, baseline, t0, step, sampleSize, draws, k - 1), baseline)
    ensures TourOf(Anneal(boltzmann, baseline, t0, step, sampleSize, draws, k), baseline)
  {
    var prev := Anneal(boltzmann, baseline, t0, step, sampleSize, draws, k - 1);
    LevelIsTour(boltzmann, baseline, prev, Temperature(t0, step, k - 1), sampleSize, draws(k - 1));
    var next := LevelResult(boltzmann, prev, Temperature(t0, step, k - 1), sampleSize, draws(k - 1));
    assert Anneal(boltzmann, baseline, t0, step, sampleSize, draws, k) == next;
  }

  /** Annealing never changes which cities are visited and keeps the cached cost consistent. */
  lemma {:induction false} AnnealIsTour(boltzmann: (real, real) -> real, baseline: Itinerary, t0: real, step: real,
                                        sampleSize: nat, draws: nat -> nat -> Draw, k: nat)
    requires Consistent(baseline)
    ensures TourOf(Anneal(boltzmann, baseline, t0, step, sampleSize, draws, k), baseline)
  {
    if k > 0 {
      AnnealIsTour(boltzmann, baseline, t0, step, sampleSize, draws, k - 1);
      AnnealStepIsTour(boltzmann, baseline, t0, step, sampleSize, draws, k);
    }
  }

  /** An annealing schedule: its parameters, its current temperature and its working tour. */
  class Schedule {
    var itinerary: Itinerary
    const temperatureStep: real
    const startTemperature: real
    var currentTemperature: real
    const minTemperature: real
    const numCities: nat

    /** The working tour visits numCities cities and its cached cost is its cost. */
    ghost predicate Valid()
      reads this
    {
      Consistent(itinerary) && |itinerary.cities| == numCities
    }

    /** `Schedule::new`: store the parameters and build the initial tour from the injected coordinates. */
    constructor (startTemperature: real, temperatureStep: real, minTemperature: real, numCities: nat,
                 coords: nat -> (real, real))
      requires numCities >= 1
      ensures this.startTemperature == startTemperature && currentTemperature == startTemperature
      ensures this.temperatureStep == temperatureStep && this.minTemperature == minTemperature
      ensures this.numCities == numCities
      ensures Valid()
      ensures forall k :: 0 <= k < numCities ==> itinerary.cities[k] == City(k, coords(k).0, coords(k).1)
    {
      var it := NewItinerary(numCities, coords);
      this.startTemperature := startTemperature;
      this.currentTemperature := startTemperature;
      this.itinerary := it;
      this.temperatureStep := temperatureStep;
      this.minTemperature := minTemperature;
      this.numCities := numCities;
    }

    /**
     * One iteration of `run`: sample a chain at the current temperature,
     * keep its last sample, report the temperature with the new cost, and
     * lower the temperature by one step.  Started from the state the model
     * gives after k levels (with `results` the records reported so far), it
     * leaves the state after k + 1 levels and the record that extends them.
     */
    method Level(sampleSize: nat, boltzmann: (real, real) -> real, draws: nat -> nat -> Draw, k: nat,
                 ghost it0: Itinerary, ghost t0: real, ghost results: seq<(real, real)>)
      returns (record: (real, real))
      requires currentTemperature == Temperature(t0, temperatureStep, k)
      requires itinerary == Anneal(boltzmann, it0, t0, temperatureStep, sampleSize, draws, k)
      requires results == Records(boltzmann, it0, t0, temperatureStep, sampleSize, draws, k)
      modifies this`itinerary, this`currentTemperature
      ensures currentTemperature == Temperature(t0, temperatureStep, k + 1)
      ensures itinerary == Anneal(boltzmann, it0, t0, temperatureStep, sampleSize, draws, k + 1)
      ensures results + [record] == Records(boltzmann, it0, t0, temperatureStep, sampleSize, draws, k + 1)
      ensures record.0 == old(currentTemperature)
    {
      var values, _ := Sample(Instance(boltzmann, itinerary, currentTemperature), sampleSize, draws(k));
      ChainLast(Instance(boltzmann, itinerary, currentTemperature), sampleSize, draws(k));
      itinerary := values[|values| - 1];
      record := (currentTemperature, itinerary.cost);
      currentTemperature := currentTemperature - temperatureStep;
    }

    /**
     * `run`: while the temperature is above the minimum, run one level.
     * The loop stops only if the step is positive or the start is already
     * at the minimum; the results are what the plotting code receives.
     */
    method Run(sampleSize: nat, boltzmann: (real, real) -> real, draws: nat -> nat -> Draw)
      returns (final: Itinerary, results: seq<(real, real)>)
      requires Valid()
      requires temperatureStep > 0.0 || currentTemperature <= minTemperature
      modifies this`itinerary, this`currentTemperature
      ensures Valid() && multiset(itinerary.cities) == multiset(old(itinerary.cities))
      ensures currentTemperature <= minTemperature
      ensures currentTemperature == Temperature(old(currentTemperature), temperatureStep, |results|)
      ensures forall k {:trigger results[k]} :: 0 <= k < |results| ==> results[k].0 > minTemperature
      ensures forall k {:trigger results[k]} :: 0 <= k < |results| ==>
        results[k] == (Temperature(old(currentTemperature), temperatureStep, k),
                       Anneal(boltzmann, old(itinerary), old(currentTemperature), temperatureStep,
                              sampleSize, draws, k + 1).cost)
      ensures itinerary == Anneal(boltzmann, old(itinerary), old(currentTemperature), temperatureStep,
                                  sampleSize, draws, |results|)
      ensures final == itinerary
      ensures |results| == Levels(old(currentTemperature), minTemperature, temperatureStep)
    {
      ghost var t0, it0 := currentTemperature, itinerary;
      ghost var bound := LevelBound(t0, minTemperature, temperatureStep);
      results := [];
      while currentTemperature > minTemperature
        invariant currentTemperature == Temperature(t0, temperatureStep, |results|)
        invariant |results| <= bound
        invariant itinerary == Anneal(boltzmann, it0, t0, temperatureStep, sampleSize, draws, |results|)
        invariant results == Records(boltzmann, it0, t0, temperatureStep, sampleSize, draws, |results|)
        invariant forall k {:trigger results[k]} :: 0 <= k < |results| ==> results[k].0 > minTemperature
        decreases bound - |results|
      {
        var record := Level(sampleSize, boltzmann, draws, |results|, it0, t0, results);
        results := results + [record];
      }
      forall k | 0 <= k < |results|
        ensures results[k] == (Temperature(t0, temperatureStep, k),
                               Anneal(boltzmann, it0, t0, temperatureStep, sampleSize, draws, k + 1).cost)
      {
        RecordAt(boltzmann, it0, t0, temperatureStep, sampleSize, draws, |results|, k);
      }
      forall k: nat | k < |results|
        ensures Temperature(t0, temperatureStep, k) > minTemperature
      {
        assert results[k].0 > minTemperature;
      }
      LevelsCount(t0, minTemperature, temperatureStep, |results|);
      AnnealIsTour(boltzmann, it0, t0, temperatureStep, sampleSize, draws, |results|);
      final := itinerary;
    }
  }
}
