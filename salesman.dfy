/**
 * The tour model: cities, itineraries with a cached cost, the Manhattan
 * metric, the closed-tour cost, the rejection sampler for two distinct
 * indices and the 2-opt move that reverses a segment of the tour.
 */
module Salesman {
  import opened Wrappers

  /** A city is its identifier plus two coordinates. */
  datatype City = City(id: nat, x: real, y: real)

  /** The cities in visiting order plus the cost cached for that order. */
  datatype Itinerary = Itinerary(cities: seq<City>, cost: real)

  /** Manhattan distance between two cities. */
  function Manhattan(start: City, finish: City): (d: real)
    ensures d >= 0.0
    ensures d == 0.0 <==> start.x == finish.x && start.y == finish.y
  {
    (if start.x > finish.x then start.x - finish.x else finish.x - start.x)
    + (if start.y > finish.y then start.y - finish.y else finish.y - start.y)
  }

  lemma ManhattanSymmetric(a: City, b: City)
    ensures Manhattan(a, b) == Manhattan(b, a)
  {
  }

  lemma ManhattanTriangle(a: City, b: City, c: City)
    ensures Manhattan(a, c) <= Manhattan(a, b) + Manhattan(b, c)
  {
  }

  /** Sum of Manhattan(s[k], s[k-1]) for k in 1..|s|: the open path through s. */
  function PathCost(s: seq<City>): (r: real)
    ensures r >= 0.0
  {
    if |s| <= 1 then 0.0
    else PathCost(s[..|s| - 1]) + Manhattan(s[|s| - 1], s[|s| - 2])
  }

  /** Cost of the closed tour: the open path plus the wrap-around edge. */
  function TourCost(s: seq<City>): real
    requires |s| > 0
  {
    Manhattan(s[0], s[|s| - 1]) + PathCost(s)
  }

  /** An itinerary whose cached cost is the cost of its own city order. */
  predicate Consistent(it: Itinerary) {
    |it.cities| > 0 && it.cost == TourCost(it.cities)
  }

  lemma {:induction false} PathCostIsSum(s: seq<City>, i: nat)
    requires 1 <= i < |s|
    ensures PathCost(s[..i + 1]) == PathCost(s[..i]) + Manhattan(s[i], s[i - 1])
  {
    assert s[..i + 1][..i] == s[..i];
  }

  /** The running-sum loop of the source: `cost` over the city vector. */
  method Cost(cities: seq<City>) returns (cost: real)
    requires |cities| > 0
    ensures cost == TourCost(cities)
    ensures cost >= 0.0
  {
    var len := |cities|;
    cost := Manhattan(cities[0], cities[len - 1]);
    var i := 1;
    while i < len
      invariant 1 <= i <= len
      invariant cost == Manhattan(cities[0], cities[len - 1]) + PathCost(cities[..i])
    {
      PathCostIsSum(cities, i);
      cost := cost + Manhattan(cities[i], cities[i - 1]);
      i := i + 1;
    }
    assert cities[..len] == cities;
  }

  /** Average length of one leg of the tour. */
  function AverageStepLength(it: Itinerary): (r: real)
    requires |it.cities| > 0
    ensures r * (|it.cities| as real) == it.cost
    ensures Consistent(it) ==> r >= 0.0
  {
    it.cost / (|it.cities| as real)
  }

  /** A pair of indices with the smaller one first. */
  function Ordered(a: nat, b: nat): (nat, nat) {
    if a < b then (a, b) else (b, a)
  }

  /** The raw draw `d`, seen as an index drawn uniformly from 0..len. */
  predicate Distinct(len: nat, d: (nat, nat))
    requires len > 0
  {
    d.0 % len != d.1 % len
  }

  /**
   * What the rejection loop of `generate_swap_indices` returns after
   * consuming the draws: the first pair of distinct indices, smaller first,
   * or None if the draws run out first (the source would keep drawing) or
   * the range 0..len is empty.
   */
  function SwapIndices(len: nat, draws: seq<(nat, nat)>): Option<(nat, nat)>
  {
    if len == 0 || draws == [] then None
    else if Distinct(len, draws[0]) then Some(Ordered(draws[0].0 % len, draws[0].1 % len))
    else SwapIndices(len, draws[1..])
  }

  /** Where SwapIndices finds a pair, it is a pair of valid, distinct, ordered indices. */
  lemma {:induction false} SwapIndicesInRange(len: nat, draws: seq<(nat, nat)>)
    requires SwapIndices(len, draws).Some?
    ensures SwapIndices(len, draws).value.0 < SwapIndices(len, draws).value.1 < len
  {
    if !Distinct(len, draws[0]) {
      SwapIndicesInRange(len, draws[1..]);
    }
  }

  /**
   * The pair returned is the first distinct draw, and every draw before it
   * was rejected because its two indices were equal.
   */
  lemma {:induction false} SwapIndicesFirstDistinct(len: nat, draws: seq<(nat, nat)>, k: nat)
    requires len > 0 && k < |draws| && Distinct(len, draws[k])
    requires forall m :: 0 <= m < k ==> !Distinct(len, draws[m])
    ensures SwapIndices(len, draws) == Some(Ordered(draws[k].0 % len, draws[k].1 % len))
  {
    if k > 0 {
      assert !Distinct(len, draws[0]);
      forall m | 0 <= m < k - 1
        ensures !Distinct(len, draws[1..][m])
      {
        assert draws[1..][m] == draws[m + 1];
      }
      SwapIndicesFirstDistinct(len, draws[1..], k - 1);
    }
  }

  /**
   * With fewer than two cities no pair is ever returned: with one city every
   * draw is rejected and the source loops forever; with none, drawing from
   * the empty range 0..0 makes the source panic.
   */
  lemma {:induction false} SwapIndicesBelowTwo(len: nat, draws: seq<(nat, nat)>)
    requires len < 2
    ensures SwapIndices(len, draws) == None
  {
    if len == 1 && draws != [] {
      SwapIndicesBelowTwo(len, draws[1..]);
    }
  }

  /** The rejection loop of `generate_swap_indices`, over the injected draws. */
  method GenerateSwapIndices(len: nat, draws: seq<(nat, nat)>) returns (r: Option<(nat, nat)>)
    ensures r == SwapIndices(len, draws)
    ensures r.Some? ==> r.value.0 < r.value.1 < len
  {
    if len == 0 {
      return None;
    }
    var k := 0;
    while k < |draws|
      invariant 0 <= k <= |draws|
      invariant SwapIndices(len, draws) == SwapIndices(len, draws[k..])
    {
      var indexOne := draws[k].0 % len;
      var indexTwo := draws[k].1 % len;
      if indexOne != indexTwo {
        SwapIndicesInRange(len, draws[k..]);
        if indexOne < indexTwo {
          return Some((indexOne, indexTwo));
        } else {
          return Some((indexTwo, indexOne));
        }
      }
      assert draws[k..][1..] == draws[k + 1..];
      k := k + 1;
    }
    return None;
  }

  /**
   * s with the segment [lo, hi) reversed, the way the swap loop does it:
   * exchange the two ends, then reverse what lies strictly between them.
   */
  function ReverseRange<T>(s: seq<T>, lo: nat, hi: nat): (r: seq<T>)
    requires lo <= hi <= |s|
    ensures |r| == |s|
    decreases hi - lo
  {
    if hi - lo < 2 then s
    else ReverseRange(s[lo := s[hi - 1]][hi - 1 := s[lo]], lo + 1, hi - 1)
  }

  /** The 2-opt move on index pair (i, j): reverse the cities at positions i..j. */
  function Move(it: Itinerary, i: nat, j: nat): Itinerary
    requires i <= j < |it.cities|
  {
    var cities := ReverseRange(it.cities, i, j + 1);
    Itinerary(cities, TourCost(cities))
  }

  /** Position by position: inside [lo, hi) the order is mirrored, outside it nothing moves. */
  lemma {:induction false} ReverseRangeAt<T>(s: seq<T>, lo: nat, hi: nat, k: nat)
    requires lo <= hi <= |s| && k < |s|
    ensures ReverseRange(s, lo, hi)[k] == if lo <= k < hi then s[lo + hi - 1 - k] else s[k]
    decreases hi - lo
  {
    if hi - lo >= 2 {
      var t := s[lo := s[hi - 1]][hi - 1 := s[lo]];
      ReverseRangeAt(t, lo + 1, hi - 1, k);
    }
  }

  /** Exchanging two positions of a sequence keeps its multiset of elements. */
  lemma SwapPermutes<T>(s: seq<T>, a: nat, b: nat)
    requires a < b < |s|
    ensures multiset(s[a := s[b]][b := s[a]]) == multiset(s)
  {
    var t := s[a := s[b]];
    assert multiset(t) == multiset(s) - multiset{s[a]} + multiset{s[b]};
    assert t[b] == s[b];
    assert multiset(t[b := s[a]]) == multiset(t) - multiset{s[b]} + multiset{s[a]};
  }

  /** One step of the reversal: swapping the ends keeps the multiset and leaves the inside to reverse. */
  lemma ReverseRangeStep<T>(s: seq<T>, t: seq<T>, lo: nat, hi: nat)
    requires lo + 2 <= hi <= |s| && t == s[lo := s[hi - 1]][hi - 1 := s[lo]]
    ensures |t| == |s| && ReverseRange(s, lo, hi) == ReverseRange(t, lo + 1, hi - 1)
    ensures multiset(t) == multiset(s)
  {
    SwapPermutes(s, lo, hi - 1);
  }

  /** Reversing a segment keeps the same multiset of cities. */
  lemma {:induction false} ReverseRangePermutes<T>(s: seq<T>, lo: nat, hi: nat)
    requires lo <= hi <= |s|
    ensures multiset(ReverseRange(s, lo, hi)) == multiset(s)
    decreases hi - lo
  {
    if hi - lo >= 2 {
      var t := s[lo := s[hi - 1]][hi - 1 := s[lo]];
      ReverseRangeStep(s, t, lo, hi);
      ReverseRangePermutes(t, lo + 1, hi - 1);
    }
  }

  /** The 2-opt move keeps the length and the multiset of cities, and its cached cost is its cost. */
  lemma MoveIsTour(it: Itinerary, i: nat, j: nat)
    requires i <= j < |it.cities|
    ensures |Move(it, i, j).cities| == |it.cities|
    ensures multiset(Move(it, i, j).cities) == multiset(it.cities)
    ensures Consistent(Move(it, i, j))
  {
    ReverseRangePermutes(it.cities, i, j + 1);
  }

  /** The 2-opt move reverses positions i..j exactly and leaves every other position in place. */
  lemma MoveReverses(it: Itinerary, i: nat, j: nat)
    requires i <= j < |it.cities|
    ensures forall k :: i <= k <= j ==> Move(it, i, j).cities[k] == it.cities[i + j - k]
    ensures forall k :: 0 <= k < |it.cities| && !(i <= k <= j) ==> Move(it, i, j).cities[k] == it.cities[k]
  {
    forall k | i <= k <= j
      ensures Move(it, i, j).cities[k] == it.cities[i + j - k]
    {
      ReverseRangeAt(it.cities, i, j + 1, k);
    }
    forall k | 0 <= k < |it.cities| && !(i <= k <= j)
      ensures Move(it, i, j).cities[k] == it.cities[k]
    {
      ReverseRangeAt(it.cities, i, j + 1, k);
    }
  }

  /** What `generate_new` returns for the given index draws, if the draws suffice. */
  function Proposal(it: Itinerary, draws: seq<(nat, nat)>): Option<Itinerary>
  {
    match SwapIndices(|it.cities|, draws)
    case None => None
    case Some(p) =>
      SwapIndicesInRange(|it.cities|, draws);
      Some(Move(it, p.0, p.1))
  }

  /** A proposal is a permutation of the same cities with a consistent cached cost. */
  lemma ProposalIsTour(it: Itinerary, draws: seq<(nat, nat)>)
    requires Proposal(it, draws).Some?
    ensures multiset(Proposal(it, draws).value.cities) == multiset(it.cities)
    ensures |Proposal(it, draws).value.cities| == |it.cities|
    ensures Consistent(Proposal(it, draws).value)
  {
    var p := SwapIndices(|it.cities|, draws).value;
    SwapIndicesInRange(|it.cities|, draws);
    MoveIsTour(it, p.0, p.1);
  }

  /**
   * The swap loop of `generate_new`: exchange the cities at the two indices
   * and move both inward until they meet, reversing positions i..j in place.
   */
  method ReverseSegment(cities: array<City>, i: nat, j: nat)
    requires i <= j < cities.Length
    modifies cities
    ensures cities[..] == ReverseRange(old(cities[..]), i, j + 1)
  {
    ghost var s := cities[..];
    var indexOne, indexTwo := i, j;
    while indexOne < indexTwo
      invariant i <= indexOne <= indexTwo + 1 && indexTwo <= j
      invariant ReverseRange(cities[..], indexOne, indexTwo + 1) == ReverseRange(s, i, j + 1)
    {
      ghost var before := cities[..];
      var temp := cities[indexOne];
      cities[indexOne] := cities[indexTwo];
      cities[indexTwo] := temp;
      assert cities[..] == before[indexOne := before[indexTwo]][indexTwo := before[indexOne]];
      indexOne := indexOne + 1;
      indexTwo := indexTwo - 1;
    }
  }

  /**
   * `generate_new`: draw the two indices, reverse the segment between them
   * on a copy of the cities, then recompute the cost.  The input itinerary
   * is a value and is never changed.
   */
  method GenerateNew(it: Itinerary, draws: seq<(nat, nat)>) returns (r: Option<Itinerary>)
    ensures r == Proposal(it, draws)
    ensures r.Some? ==> multiset(r.value.cities) == multiset(it.cities) && Consistent(r.value)
  {
    var indices := GenerateSwapIndices(|it.cities|, draws);
    if indices.None? {
      return None;
    }
    var (i, j) := indices.value;
    var n := |it.cities|;
    var cities := new City[n](k requires 0 <= k < n => it.cities[k]);
    assert cities[..] == it.cities;
    ReverseSegment(cities, i, j);
    var cost := Cost(cities[..]);
    r := Some(Itinerary(cities[..], cost));
    assert r.value == Move(it, i, j);
    MoveIsTour(it, i, j);
  }

  /** `Itinerary::new`: cities 0..n-1 at the injected coordinates, with their cost. */
  method NewItinerary(numCities: nat, coords: nat -> (real, real)) returns (it: Itinerary)
    requires numCities >= 1
    ensures |it.cities| == numCities
    ensures forall k :: 0 <= k < numCities ==> it.cities[k] == City(k, coords(k).0, coords(k).1)
    ensures Consistent(it) && it.cost >= 0.0
  {
    var cities: seq<City> := [];
    var i := 0;
    while i < numCities
      invariant 0 <= i <= numCities && |cities| == i
      invariant forall k :: 0 <= k < i ==> cities[k] == City(k, coords(k).0, coords(k).1)
    {
      cities := cities + [City(i, coords(i).0, coords(i).1)];
      i := i + 1;
    }
    var cost := Cost(cities);
    it := Itinerary(cities, cost);
  }
}
