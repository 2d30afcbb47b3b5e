/**
 * Pure bookkeeping behind the pairwise diversity, TMRCA and Ne*tau
 * estimators of the simulation, built from sampled pairs of viruses.
 * Java's double division is modelled with its infinities and NaN; the sums
 * themselves are exact reals.
 */
module Estimators {
  import opened Viruses

  /** The outcome of a Java double division: a finite value, an infinity
      (non-zero over zero) or NaN (zero over zero). */
  datatype Double = Finite(value: real) | PosInf | NegInf | NaN

  function Divide(a: real, b: real): Double {
    if b != 0.0 then Finite(a / b)
    else if a > 0.0 then PosInf
    else if a < 0.0 then NegInf
    else NaN
  }

  /** A division is finite exactly when the divisor is non-zero, and then
      its value times the divisor is the dividend; zero over zero is NaN and
      a positive value over zero is positive infinity. Kept apart from
      Divide so that the product is in scope only where it is asked for. */
  lemma DivideSpec(a: real, b: real)
    ensures var r := Divide(a, b);
      && (r.Finite? <==> b != 0.0)
      && (r.Finite? ==> r.value * b == a)
      && (r == NaN <==> a == 0.0 && b == 0.0)
      && (r == PosInf <==> a > 0.0 && b == 0.0)
  {
  }

  /** Two viruses drawn by getRandomInfection; either may be null. */
  datatype Pair = Pair(first: Virus?, second: Virus?)

  predicate Usable(p: Pair) {
    p.first != null && p.second != null
  }

  /** The number of sampled pairs with both viruses present. */
  function UsableCount(ps: seq<Pair>): nat {
    if ps == [] then 0
    else UsableCount(ps[..|ps| - 1]) + (if Usable(ps[|ps| - 1]) then 1 else 0)
  }

  /** The diversity accumulator: the sum of the distances of usable pairs. */
  function DistanceSum(ps: seq<Pair>, distance: (Virus, Virus) -> real): real {
    if ps == [] then 0.0
    else
      var p := ps[|ps| - 1];
      DistanceSum(ps[..|ps| - 1], distance) + (if Usable(p) then distance(p.first, p.second) else 0.0)
  }

  /** The TMRCA accumulator: starts at 0 and is raised by every larger
      distance of a usable pair. */
  function MaxDistance(ps: seq<Pair>, distance: (Virus, Virus) -> real): real {
    if ps == [] then 0.0
    else
      var p := ps[|ps| - 1];
      var m := MaxDistance(ps[..|ps| - 1], distance);
      if Usable(p) && distance(p.first, p.second) > m then distance(p.first, p.second) else m
  }

  /** The coalescence accumulator of updateNetau. */
  function CoalescenceSum(ps: seq<Pair>, coalescence: (Virus, Virus, real) -> real, window: real): real {
    if ps == [] then 0.0
    else
      var p := ps[|ps| - 1];
      CoalescenceSum(ps[..|ps| - 1], coalescence, window)
        + (if Usable(p) then coalescence(p.first, p.second, window) else 0.0)
  }

  /** One more sampled pair: how the two accumulators of updateDiversity
      move from the first `i` pairs to the first `i + 1`. */
  lemma DistanceStep(ps: seq<Pair>, i: nat, distance: (Virus, Virus) -> real)
    requires i < |ps|
    ensures var p := ps[i];
      && DistanceSum(ps[..i + 1], distance)
           == DistanceSum(ps[..i], distance) + (if Usable(p) then distance(p.first, p.second) else 0.0)
      && MaxDistance(ps[..i + 1], distance)
           == (if Usable(p) && distance(p.first, p.second) > MaxDistance(ps[..i], distance)
               then distance(p.first, p.second) else MaxDistance(ps[..i], distance))
  {
    assert ps[..i + 1][..i] == ps[..i];
  }

  /** The same step for the two accumulators of updateNetau. */
  lemma CoalescenceStep(ps: seq<Pair>, i: nat, coalescence: (Virus, Virus, real) -> real, window: real)
    requires i < |ps|
    ensures var p := ps[i];
      && Opportunity(ps[..i + 1], window) == Opportunity(ps[..i], window) + (if Usable(p) then window else 0.0)
      && CoalescenceSum(ps[..i + 1], coalescence, window)
           == CoalescenceSum(ps[..i], coalescence, window)
              + (if Usable(p) then coalescence(p.first, p.second, window) else 0.0)
  {
    assert ps[..i + 1][..i] == ps[..i];
  }

  /** The TMRCA accumulator is never negative, bounds the distance of every
      usable pair, and is 0 or attained by one of them. */
  lemma {:induction false} MaxDistanceSpec(ps: seq<Pair>, distance: (Virus, Virus) -> real)
    ensures MaxDistance(ps, distance) >= 0.0
    ensures forall k :: 0 <= k < |ps| && Usable(ps[k]) ==>
      distance(ps[k].first, ps[k].second) <= MaxDistance(ps, distance)
    ensures MaxDistance(ps, distance) == 0.0 || exists k ::
      && 0 <= k < |ps| && Usable(ps[k])
      && distance(ps[k].first, ps[k].second) == MaxDistance(ps, distance)
  {
    if ps != [] {
      var init := ps[..|ps| - 1];
      MaxDistanceSpec(init, distance);
      assert forall k :: 0 <= k < |init| ==> init[k] == ps[k];
    }
  }

  /** The diversity sum is at most the number of usable pairs times the
      largest distance. */
  lemma {:induction false} DistanceSumBound(ps: seq<Pair>, distance: (Virus, Virus) -> real)
    ensures DistanceSum(ps, distance) <= UsableCount(ps) as real * MaxDistance(ps, distance)
  {
    if ps == [] {
      assert DistanceSum(ps, distance) == 0.0 && UsableCount(ps) == 0 && MaxDistance(ps, distance) == 0.0;
    } else {
      DistanceSumBound(ps[..|ps| - 1], distance);
      DistanceSumBoundStep(ps, distance);
    }
  }

  /** The inductive step of DistanceSumBound: the bound for all pairs but
      the last gives the bound for all of them. */
  lemma DistanceSumBoundStep(ps: seq<Pair>, distance: (Virus, Virus) -> real)
    requires ps != []
    requires var init := ps[..|ps| - 1];
      DistanceSum(init, distance) <= UsableCount(init) as real * MaxDistance(init, distance)
    ensures DistanceSum(ps, distance) <= UsableCount(ps) as real * MaxDistance(ps, distance)
  {
    var init := ps[..|ps| - 1];
    var p := ps[|ps| - 1];
    var s0 := DistanceSum(init, distance);
    var c0 := UsableCount(init) as real;
    var m0 := MaxDistance(init, distance);
    var x := if Usable(p) then distance(p.first, p.second) else 0.0;
    BoundStep(s0, c0, m0, MaxDistance(ps, distance), x, DistanceSum(ps, distance), UsableCount(ps) as real);
  }

  /** One step of the bound: a running sum at most c0 copies of an old
      maximum m0, plus one value x, is at most c0 + 1 copies of any m that
      bounds both; and, adding nothing, at most c0 copies of m. */
  lemma BoundStep(s0: real, c0: real, m0: real, m: real, x: real, s: real, c: real)
    requires 0.0 <= c0 && s0 <= c0 * m0 && m0 <= m
    ensures s == s0 + x && c == c0 + 1.0 && x <= m ==> s <= c * m
    ensures s == s0 && c == c0 ==> s <= c * m
  {
    assert c0 * m == c0 * m0 + c0 * (m - m0);
    assert (c0 + 1.0) * m == c0 * m + m;
  }

  /** Pairs with a null virus contribute nothing: without a usable pair
      every accumulator stays at its initial 0. */
  lemma {:induction false} NoUsablePairs(
    ps: seq<Pair>, distance: (Virus, Virus) -> real,
    coalescence: (Virus, Virus, real) -> real, window: real)
    requires UsableCount(ps) == 0
    ensures DistanceSum(ps, distance) == 0.0 && MaxDistance(ps, distance) == 0.0
    ensures CoalescenceSum(ps, coalescence, window) == 0.0
  {
    if ps != [] {
      NoUsablePairs(ps[..|ps| - 1], distance, coalescence, window);
    }
  }

  /** The opportunity accumulator of updateNetau: one window per usable pair. */
  function Opportunity(ps: seq<Pair>, window: real): real {
    if ps == [] then 0.0
    else Opportunity(ps[..|ps| - 1], window) + (if Usable(ps[|ps| - 1]) then window else 0.0)
  }

  lemma {:induction false} OpportunityCount(ps: seq<Pair>, window: real)
    ensures Opportunity(ps, window) == window * UsableCount(ps) as real
  {
    if ps != [] {
      OpportunityCount(ps[..|ps| - 1], window);
      var c := UsableCount(ps[..|ps| - 1]) as real;
      assert window * (c + 1.0) == window * c + window;
    }
  }

  /** updateNetau's final value: the opportunity over the coalescence
      count, unguarded. */
  function Netau(ps: seq<Pair>, coalescence: (Virus, Virus, real) -> real, window: real): Double {
    Divide(Opportunity(ps, window), CoalescenceSum(ps, coalescence, window))
  }

  /** With no usable pair, Ne*tau is 0/0; with usable pairs, a positive
      window and no coalescence it is +infinity. */
  lemma NetauUnguarded(ps: seq<Pair>, coalescence: (Virus, Virus, real) -> real, window: real)
    ensures UsableCount(ps) == 0 ==> Netau(ps, coalescence, window) == NaN
    ensures UsableCount(ps) > 0 && window > 0.0 && CoalescenceSum(ps, coalescence, window) == 0.0 ==>
      Netau(ps, coalescence, window) == PosInf
  {
    OpportunityCount(ps, window);
    if UsableCount(ps) == 0 {
      NoUsablePairs(ps, (a, b) => 0.0, coalescence, window);
    }
  }
}
