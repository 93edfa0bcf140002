/**
  Stoichiometry and the two per-reaction operations of the simulator:
  the propensity of a reaction against a population list, and firing a
  reaction, which updates the population list in place.

  The engine indexes species by position in an `array<int>` of counts
  (the list form of the population); the parser produces the same
  structures labelled by strings, hence the species type parameter `S`.
*/
module Reactions {

  /** One entry of a reaction side: a species and its coefficient. */
  datatype StructuralFormula<S> = StructuralFormula(chemical: S, coefficient: nat)

  /** Reactant entries, product entries and the rate constant. */
  datatype Reaction<S> = Reaction(
    reactants: seq<StructuralFormula<S>>,
    products: seq<StructuralFormula<S>>,
    rate: real)

  /** Every species named on `side` is an index into a population of `n` counts. */
  predicate SideInRange(side: seq<StructuralFormula<nat>>, n: nat)
  {
    forall k :: 0 <= k < |side| ==> side[k].chemical < n
  }

  predicate InRange(rxn: Reaction<nat>, n: nat)
  {
    SideInRange(rxn.reactants, n) && SideInRange(rxn.products, n)
  }

  predicate NonNegative(pop: seq<int>)
  {
    forall s :: 0 <= s < |pop| ==> pop[s] >= 0
  }

  /** `x` multiplied into 1.0 `n` times. */
  function Pow(x: real, n: nat): real
  {
    if n == 0 then 1.0 else Pow(x, n - 1) * x
  }

  /** The product, over the reactant entries in order, of count^coefficient. */
  function ReactantFactor(side: seq<StructuralFormula<nat>>, pop: seq<int>): real
    requires SideInRange(side, |pop|)
  {
    if side == [] then 1.0
    else
      var last := side[|side| - 1];
      ReactantFactor(side[..|side| - 1], pop) * Pow(pop[last.chemical] as real, last.coefficient)
  }

  /**
    Mass-action propensity as the source computes it: the rate times each
    reactant count, multiplied in coefficient-many times (not the falling
    factorial of the textbook combinatorial propensity).
  */
  function Propensity(rxn: Reaction<nat>, pop: seq<int>): (a: real)
    requires SideInRange(rxn.reactants, |pop|)
    ensures rxn.reactants == [] ==> a == rxn.rate
  {
    rxn.rate * ReactantFactor(rxn.reactants, pop)
  }

  /** Total coefficient with which `side` names species `s` (entries for the same species add up). */
  function Coefficient<S(==)>(side: seq<StructuralFormula<S>>, s: S): nat
  {
    if side == [] then 0
    else
      var last := side[|side| - 1];
      Coefficient(side[..|side| - 1], s) + (if last.chemical == s then last.coefficient else 0)
  }

  /** Net effect of one firing: each species changes by its product minus its reactant coefficient. */
  function Fire(rxn: Reaction<nat>, pop: seq<int>): (next: seq<int>)
    ensures |next| == |pop|
  {
    seq(|pop|, s requires 0 <= s < |pop| =>
      pop[s] - Coefficient(rxn.reactants, s) + Coefficient(rxn.products, s))
  }

  /**
    Reaction.getPropensity: starts from the rate and multiplies in each
    reactant's count once per unit of its coefficient. The population is
    only read.
  */
  method GetPropensity(rxn: Reaction<nat>, chemicalList: array<int>) returns (a: real)
    requires SideInRange(rxn.reactants, chemicalList.Length)
    ensures a == Propensity(rxn, chemicalList[..])
  {
    ghost var pop := chemicalList[..];
    var reactants := rxn.reactants;
    a := rxn.rate;
    var j := 0;
    while j < |reactants|
      invariant 0 <= j <= |reactants|
      invariant a == rxn.rate * ReactantFactor(reactants[..j], pop)
    {
      var chemical := reactants[j];
      var count := chemicalList[chemical.chemical] as real;
      ghost var before := rxn.rate * ReactantFactor(reactants[..j], pop);
      var i := 0;
      while i < chemical.coefficient
        invariant 0 <= i <= chemical.coefficient
        invariant a == before * Pow(count, i)
      {
        a := a * count;
        i := i + 1;
      }
      assert reactants[..j + 1][..j] == reactants[..j];
      j := j + 1;
    }
    assert reactants[..j] == reactants;
  }

  /**
    Reaction.performReaction: lowers each reactant's count by its
    coefficient, then raises each product's count by its coefficient.
    No count is checked against going negative.
  */
  method PerformReaction(rxn: Reaction<nat>, chemicalList: array<int>)
    requires InRange(rxn, chemicalList.Length)
    modifies chemicalList
    ensures chemicalList[..] == Fire(rxn, old(chemicalList[..]))
  {
    var reactants, products := rxn.reactants, rxn.products;
    var j := 0;
    while j < |reactants|
      invariant 0 <= j <= |reactants|
      invariant forall s :: 0 <= s < chemicalList.Length ==>
        chemicalList[s] == old(chemicalList[s]) - Coefficient(reactants[..j], s)
    {
      var chemical := reactants[j];
      chemicalList[chemical.chemical] := chemicalList[chemical.chemical] - chemical.coefficient;
      assert reactants[..j + 1][..j] == reactants[..j];
      j := j + 1;
    }
    assert reactants[..j] == reactants;
    j := 0;
    while j < |products|
      invariant 0 <= j <= |products|
      invariant forall s :: 0 <= s < chemicalList.Length ==>
        chemicalList[s] == old(chemicalList[s]) - Coefficient(reactants, s) + Coefficient(products[..j], s)
    {
      var chemical := products[j];
      chemicalList[chemical.chemical] := chemicalList[chemical.chemical] + chemical.coefficient;
      assert products[..j + 1][..j] == products[..j];
      j := j + 1;
    }
    assert products[..j] == products;
  }

  // ---------------------------------------------------------------------
  // Properties of the propensity

  lemma {:induction false} PowNonNegative(x: real, n: nat)
    requires x >= 0.0
    ensures Pow(x, n) >= 0.0
  {
    if n > 0 {
      PowNonNegative(x, n - 1);
    }
  }

  lemma {:induction false} FactorNonNegative(side: seq<StructuralFormula<nat>>, pop: seq<int>)
    requires SideInRange(side, |pop|) && NonNegative(pop)
    ensures ReactantFactor(side, pop) >= 0.0
  {
    if side != [] {
      var last := side[|side| - 1];
      FactorNonNegative(side[..|side| - 1], pop);
      PowNonNegative(pop[last.chemical] as real, last.coefficient);
    }
  }

  /** With a non-negative rate and non-negative counts the propensity is non-negative. */
  lemma PropensityNonNegative(rxn: Reaction<nat>, pop: seq<int>)
    requires SideInRange(rxn.reactants, |pop|) && NonNegative(pop) && rxn.rate >= 0.0
    ensures Propensity(rxn, pop) >= 0.0
  {
    FactorNonNegative(rxn.reactants, pop);
    var f := ReactantFactor(rxn.reactants, pop);
    assert rxn.rate * f >= 0.0 * f;
  }

  lemma PowOfZero(n: nat)
    requires n >= 1
    ensures Pow(0.0, n) == 0.0
  {
  }

  lemma {:induction false} FactorZeroWhenDepleted(side: seq<StructuralFormula<nat>>, pop: seq<int>, k: nat)
    requires SideInRange(side, |pop|) && k < |side|
    requires side[k].coefficient >= 1 && pop[side[k].chemical] == 0
    ensures ReactantFactor(side, pop) == 0.0
  {
    var last := side[|side| - 1];
    var lastPow := Pow(pop[last.chemical] as real, last.coefficient);
    if k < |side| - 1 {
      assert side[..|side| - 1][k] == side[k];
      FactorZeroWhenDepleted(side[..|side| - 1], pop, k);
      assert ReactantFactor(side, pop) == 0.0 * lastPow;
    } else {
      assert last == side[k] && pop[last.chemical] as real == 0.0;
      PowOfZero(last.coefficient);
    }
  }

  /** A reactant with coefficient at least 1 whose count is 0 makes the propensity 0. */
  lemma PropensityZeroWhenDepleted(rxn: Reaction<nat>, pop: seq<int>, k: nat)
    requires SideInRange(rxn.reactants, |pop|) && k < |rxn.reactants|
    requires rxn.reactants[k].coefficient >= 1 && pop[rxn.reactants[k].chemical] == 0
    ensures Propensity(rxn, pop) == 0.0
  {
    FactorZeroWhenDepleted(rxn.reactants, pop, k);
  }

  // ---------------------------------------------------------------------
  // Properties of firing

  lemma {:induction false} CoefficientOfUnmentioned<S>(side: seq<StructuralFormula<S>>, s: S)
    requires forall k :: 0 <= k < |side| ==> side[k].chemical != s
    ensures Coefficient(side, s) == 0
  {
    if side != [] {
      CoefficientOfUnmentioned(side[..|side| - 1], s);
    }
  }

  lemma {:induction false} CoefficientWitness<S>(side: seq<StructuralFormula<S>>, s: S) returns (k: nat)
    requires Coefficient(side, s) > 0
    ensures k < |side| && side[k].chemical == s && side[k].coefficient >= 1
  {
    var last := side[|side| - 1];
    if last.chemical == s && last.coefficient >= 1 {
      k := |side| - 1;
    } else {
      k := CoefficientWitness(side[..|side| - 1], s);
    }
  }

  /** A species named on neither side keeps its count. */
  lemma FireLeavesUnmentioned(rxn: Reaction<nat>, pop: seq<int>, s: nat)
    requires s < |pop|
    requires forall k :: 0 <= k < |rxn.reactants| ==> rxn.reactants[k].chemical != s
    requires forall k :: 0 <= k < |rxn.products| ==> rxn.products[k].chemical != s
    ensures Fire(rxn, pop)[s] == pop[s]
  {
    CoefficientOfUnmentioned(rxn.reactants, s);
    CoefficientOfUnmentioned(rxn.products, s);
  }

  /** No species is consumed more than once per firing (elementary reactants). */
  predicate UnitReactants(rxn: Reaction<nat>)
  {
    forall k :: 0 <= k < |rxn.reactants| ==> Coefficient(rxn.reactants, rxn.reactants[k].chemical) <= 1
  }

  /**
    Firing a reaction with unit reactants and non-zero propensity from a
    non-negative population leaves it non-negative: a non-zero propensity
    means every consumed species has a count of at least 1.
  */
  lemma FireKeepsNonNegative(rxn: Reaction<nat>, pop: seq<int>)
    requires InRange(rxn, |pop|) && NonNegative(pop) && UnitReactants(rxn)
    requires Propensity(rxn, pop) != 0.0
    ensures NonNegative(Fire(rxn, pop))
  {
    var next := Fire(rxn, pop);
    forall s | 0 <= s < |pop|
      ensures next[s] >= 0
    {
      if Coefficient(rxn.reactants, s) > 0 {
        var k := CoefficientWitness(rxn.reactants, s);
        if pop[s] == 0 {
          PropensityZeroWhenDepleted(rxn, pop, k);
        }
      }
    }
  }

  /**
    With a coefficient of 2 the propensity counts a single molecule as
    enough to fire, and firing drives its count below zero.
  */
  lemma HigherOrderCanGoNegative()
    ensures var rxn := Reaction([StructuralFormula(0, 2)], [StructuralFormula(1, 1)], 1.0);
      Propensity(rxn, [1, 0]) == 1.0 && Fire(rxn, [1, 0]) == [-1, 1]
  {
    var rxn := Reaction([StructuralFormula(0, 2)], [StructuralFormula(1, 1)], 1.0);
    assert rxn.reactants[..0] == [];
    assert rxn.products[..0] == [];
    assert Fire(rxn, [1, 0])[0] == -1;
  }
}
