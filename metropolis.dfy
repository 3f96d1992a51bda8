/**
 * The generic Metropolis sampler.  The capability a candidate type offers
 * to the sampler (a weight, a way to propose, a way to accept) is a record of
 * three functions.  Randomness is explicit: every call gets a draw of type R,
 * and a chain reads the draws of a stream, draws(0) for the seed and
 * draws(i) for step i.
 */
module Metropolis {
  import opened Wrappers

  /**
   * What a distribution must provide to be sampled:
   *  - pdf: a value proportional to the probability of a sample;
   *  - generate: a seed (on None) or a proposal derived from the current sample;
   *  - accept: whether the chain moves from the current sample to the proposal.
   */
  datatype Simulatable<!T, -R> = Simulatable(
    pdf: T -> real,
    generate: (Option<T>, R) -> T,
    accept: (Option<T>, T, R) -> bool)

  /** One step of the chain from `cur`: the proposal if accepted, else `cur` again. */
  function Step<T, R>(s: Simulatable<T, R>, cur: T, r: R): T {
    var proposed := s.generate(Some(cur), r);
    if s.accept(Some(cur), proposed, r) then proposed else cur
  }

  /** The chain `sample` produces: the seed, then one step per index in 1..n. */
  function Chain<T, R>(s: Simulatable<T, R>, n: nat, draws: nat -> R): (c: seq<T>)
    ensures |c| == if n == 0 then 1 else n
  {
    if n <= 1 then [s.generate(None, draws(0))]
    else
      var prev := Chain(s, n - 1, draws);
      prev + [Step(s, prev[n - 2], draws(n - 1))]
  }

  /** The last sample of the chain of length n. */
  function Last<T, R>(s: Simulatable<T, R>, n: nat, draws: nat -> R): T {
    if n <= 1 then s.generate(None, draws(0))
    else Step(s, Last(s, n - 1, draws), draws(n - 1))
  }

  /** Last is the final entry of Chain. */
  lemma {:induction false} ChainLast<T, R>(s: Simulatable<T, R>, n: nat, draws: nat -> R)
    ensures Chain(s, n, draws)[|Chain(s, n, draws)| - 1] == Last(s, n, draws)
  {
    if n > 1 {
      ChainLast(s, n - 1, draws);
    }
  }

  /** The shape of a chain: it starts at the seed, and each entry is one step from the previous one. */
  lemma {:induction false} ChainShape<T, R>(s: Simulatable<T, R>, n: nat, draws: nat -> R)
    ensures Chain(s, n, draws)[0] == s.generate(None, draws(0))
    ensures forall i :: 1 <= i < |Chain(s, n, draws)| ==>
      Chain(s, n, draws)[i] == Step(s, Chain(s, n, draws)[i - 1], draws(i))
  {
    if n > 1 {
      ChainShape(s, n - 1, draws);
    }
  }

  /** A longer chain extends a shorter one over the same draws. */
  lemma {:induction false} ChainPrefix<T, R>(s: Simulatable<T, R>, m: nat, n: nat, draws: nat -> R)
    requires 1 <= m <= n
    ensures Chain(s, n, draws)[..m] == Chain(s, m, draws)
    decreases n
  {
    if m < n {
      ChainPrefix(s, m, n - 1, draws);
      assert Chain(s, n, draws)[..n - 1] == Chain(s, n - 1, draws);
      assert Chain(s, n, draws)[..m] == Chain(s, n, draws)[..n - 1][..m];
    }
  }

  /**
   * An invariant that holds of the seed and that every proposal keeps
   * holds of every sample of the chain: rejection only repeats a sample.
   */
  lemma {:induction false} ChainInvariant<T, R>(s: Simulatable<T, R>, n: nat, draws: nat -> R, P: T -> bool)
    requires P(s.generate(None, draws(0)))
    requires forall x, r :: P(x) ==> P(s.generate(Some(x), r))
    ensures forall i :: 0 <= i < |Chain(s, n, draws)| ==> P(Chain(s, n, draws)[i])
  {
    if n > 1 {
      ChainInvariant(s, n - 1, draws, P);
      var prev := Chain(s, n - 1, draws);
      assert P(prev[n - 2]);
      assert P(Step(s, prev[n - 2], draws(n - 1)));
    }
  }

  /**
   * `sample`: the values of a chain of length n (at least the seed) and,
   * beside each value, its weight.
   */
  method Sample<T, R>(s: Simulatable<T, R>, n: nat, draws: nat -> R)
    returns (values: seq<T>, probabilities: seq<real>)
    ensures |values| == |probabilities| == if n == 0 then 1 else n
    ensures values == Chain(s, n, draws)
    ensures forall i :: 0 <= i < |values| ==> probabilities[i] == s.pdf(values[i])
  {
    values := [s.generate(None, draws(0))];
    probabilities := [s.pdf(values[0])];
    var i := 1;
    while i < n
      invariant 1 <= i <= if n == 0 then 1 else n
      invariant |values| == |probabilities| == i
      invariant values == Chain(s, i, draws)
      invariant forall k :: 0 <= k < i ==> probabilities[k] == s.pdf(values[k])
    {
      var proposed := s.generate(Some(values[i - 1]), draws(i));
      if s.accept(Some(values[i - 1]), proposed, draws(i)) {
        probabilities := probabilities + [s.pdf(proposed)];
        values := values + [proposed];
      } else {
        values := values + [values[i - 1]];
        probabilities := probabilities + [probabilities[i - 1]];
      }
      i := i + 1;
    }
  }
}
