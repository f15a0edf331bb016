/**
 * Python's `random.choices(population, k=n)` with the randomness made
 * explicit: the caller supplies the `n` indices the generator drew, each
 * below the population size, and the result is the characters at them.
 */
module RandomChoice {

  /** Every draw is a valid index into a population of `n` elements. */
  predicate DrawsBelow(draws: seq<nat>, n: nat)
  {
    forall i :: 0 <= i < |draws| ==> draws[i] < n
  }

  /** `"".join(random.choices(population, k=|draws|))` for the given draws. */
  function Choices(population: string, draws: seq<nat>): (r: string)
    requires DrawsBelow(draws, |population|)
    ensures |r| == |draws|
    ensures forall i :: 0 <= i < |r| ==> r[i] in population
  {
    seq(|draws|, i requires 0 <= i < |draws| => population[draws[i]])
  }

  /** Position of `c` in `population`. */
  function IndexIn(population: string, c: char): (i: nat)
    requires c in population
    ensures i < |population| && population[i] == c
  {
    if population[0] == c then 0 else 1 + IndexIn(population[1..], c)
  }

  /** Every string over the population is a possible outcome of some draws. */
  lemma {:induction false} ChoicesReachAll(population: string, s: string)
    requires forall i :: 0 <= i < |s| ==> s[i] in population
    ensures exists draws :: DrawsBelow(draws, |population|) && Choices(population, draws) == s
  {
    var draws := seq(|s|, i requires 0 <= i < |s| => IndexIn(population, s[i]));
    assert DrawsBelow(draws, |population|);
    assert Choices(population, draws) == s;
  }
}
