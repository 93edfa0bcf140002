/**
  The demonstration network of the program's entry point: `A + B -> C`
  and `C -> A + B`, both at rate 1, from 50 molecules of each species.
  The species A, B and C are positions 0, 1 and 2 of the population list,
  the order in which the dictionary of initial values lists them.
*/
module Demo {
  import opened Wrappers
  import opened Reactions
  import opened Parsing
  import opened Selection
  import opened Simulation

  const NAMES: seq<string> := ["A", "B", "C"]

  /** `A + B -> C` and `C -> A + B` over positions 0, 1, 2. */
  const DEMO_RULES: seq<Reaction<nat>> := [
    Reaction([StructuralFormula(0, 1), StructuralFormula(1, 1)], [StructuralFormula(2, 1)], 1.0),
    Reaction([StructuralFormula(2, 1)], [StructuralFormula(0, 1), StructuralFormula(1, 1)], 1.0)
  ]

  /** A side over positions with each position replaced by its label in `names`. */
  function Label(side: seq<StructuralFormula<nat>>, names: seq<string>): (labelled: seq<Formula>)
    requires SideInRange(side, |names|)
    ensures |labelled| == |side|
    ensures forall k :: 0 <= k < |side| ==>
      labelled[k].chemical == names[side[k].chemical] && labelled[k].coefficient == side[k].coefficient
  {
    seq(|side|, k requires 0 <= k < |side| => StructuralFormula(names[side[k].chemical], side[k].coefficient))
  }

  // ---------------------------------------------------------------------
  // Parsing the two demonstration equations

  /** A piece with one letter, no digit and nothing else but spaces is that letter with coefficient 1. */
  lemma SingleLetterPiece(piece: string, i: nat)
    requires i < |piece| && IsLetter(piece[i])
    requires forall j :: 0 <= j < |piece| && j != i ==> !IsLetter(piece[j]) && !IsDigit(piece[j])
    ensures ParseChemical(piece) == Success(StructuralFormula([piece[i]], 1))
  {
    assert forall j :: 0 <= j < |piece| ==> (InClass(piece[j], Letters) <==> j == i);
    var m := Search(piece, Letters).value;
    assert m.start == i;
    assert i + 1 < |piece| ==> !InClass(piece[i + 1], Letters);
    assert piece[m.start..m.end] == [piece[i]];
  }

  lemma OnePiece(x: string)
    requires ParseChemical(x).Success?
    ensures ParsePieces([x]) == Success([ParseChemical(x).value])
  {
    ParsePiecesSpec([x]);
    assert [x][0] == x;
    var v := ParsePieces([x]).value;
    assert v == [v[0]];
  }

  lemma TwoPieces(x: string, y: string)
    requires ParseChemical(x).Success? && ParseChemical(y).Success?
    ensures ParsePieces([x, y]) == Success([ParseChemical(x).value, ParseChemical(y).value])
  {
    ParsePiecesSpec([x, y]);
    assert [x, y][0] == x && [x, y][1] == y;
    var v := ParsePieces([x, y]).value;
    assert v == [v[0], v[1]];
  }

  // The pieces, sides and equations of the entry point, for any letters in place of A, B and C.

  lemma LetterAlonePiece(x: char)
    requires IsLetter(x)
    ensures ParseChemical([x]) == Success(StructuralFormula([x], 1))
  {
    SingleLetterPiece([x], 0);
  }

  lemma LetterSpacePiece(x: char)
    requires IsLetter(x)
    ensures ParseChemical([x, ' ']) == Success(StructuralFormula([x], 1))
  {
    SingleLetterPiece([x, ' '], 0);
  }

  lemma SpaceLetterPiece(x: char)
    requires IsLetter(x)
    ensures ParseChemical([' ', x]) == Success(StructuralFormula([x], 1))
  {
    SingleLetterPiece([' ', x], 1);
  }

  lemma StripSpacedPair(x: char, y: char)
    requires IsLetter(x) && IsLetter(y)
    ensures Strip([x, ' ', '+', ' ', y, ' ']) == [x, ' '] + "+" + [' ', y]
  {
    var side := [x, ' ', '+', ' ', y, ' '];
    StripExact(side, 0, 5);
    assert side[0..5] == [x, ' '] + "+" + [' ', y];
  }

  lemma StripSpacedSingle(x: char)
    requires IsLetter(x)
    ensures Strip([' ', x]) == [x]
  {
    StripExact([' ', x], 1, 2);
    assert [' ', x][1..2] == [x];
  }

  lemma StripTightSingle(x: char)
    requires IsLetter(x)
    ensures Strip([x]) == [x]
  {
    StripExact([x], 0, 1);
    assert [x][0..1] == [x];
  }

  lemma StripTightPair(x: char, y: char)
    requires IsLetter(x) && IsLetter(y)
    ensures Strip([x, '+', y]) == [x] + "+" + [y]
  {
    var side := [x, '+', y];
    StripExact(side, 0, 3);
    assert side[0..3] == [x] + "+" + [y];
  }

  lemma StripSpacedEquation(x: char, y: char, z: char)
    requires IsLetter(x) && IsLetter(y) && IsLetter(z)
    ensures Strip([x, ' ', '+', ' ', y, ' ', '-', '>', ' ', z]) == [x, ' ', '+', ' ', y, ' '] + "->" + [' ', z]
  {
    var equation := [x, ' ', '+', ' ', y, ' ', '-', '>', ' ', z];
    StripExact(equation, 0, 10);
    assert equation[0..10] == [x, ' ', '+', ' ', y, ' '] + "->" + [' ', z];
  }

  lemma StripTightEquation(x: char, y: char, z: char)
    requires IsLetter(x) && IsLetter(y) && IsLetter(z)
    ensures Strip([x, '-', '>', y, '+', z]) == [x] + "->" + [y, '+', z]
  {
    var equation := [x, '-', '>', y, '+', z];
    StripExact(equation, 0, 6);
    assert equation[0..6] == [x] + "->" + [y, '+', z];
  }

  /** A side that strips to a lone letter. */
  lemma LetterSide(side: string, x: char)
    requires IsLetter(x) && Strip(side) == [x]
    ensures ParseSide(side) == Success([StructuralFormula([x], 1)])
  {
    SplitWithout([x], "+");
    LetterAlonePiece(x);
    OnePiece([x]);
  }

  lemma SpacedPairPieces(x: char, y: char)
    requires IsLetter(x) && IsLetter(y)
    ensures Split([x, ' '] + "+" + [' ', y], "+") == [[x, ' '], [' ', y]]
    ensures ParsePieces([[x, ' '], [' ', y]]) == Success([StructuralFormula([x], 1), StructuralFormula([y], 1)])
  {
    SplitOnce([x, ' '], "+", [' ', y]);
    LetterSpacePiece(x);
    SpaceLetterPiece(y);
    TwoPieces([x, ' '], [' ', y]);
  }

  lemma TightPairPieces(x: char, y: char)
    requires IsLetter(x) && IsLetter(y)
    ensures Split([x] + "+" + [y], "+") == [[x], [y]]
    ensures ParsePieces([[x], [y]]) == Success([StructuralFormula([x], 1), StructuralFormula([y], 1)])
  {
    SplitOnce([x], "+", [y]);
    LetterAlonePiece(x);
    LetterAlonePiece(y);
    TwoPieces([x], [y]);
  }

  lemma SpacedPairSide(x: char, y: char)
    requires IsLetter(x) && IsLetter(y)
    ensures ParseSide([x, ' ', '+', ' ', y, ' ']) == Success([StructuralFormula([x], 1), StructuralFormula([y], 1)])
  {
    StripSpacedPair(x, y);
    SpacedPairPieces(x, y);
  }

  lemma TightPairSide(x: char, y: char)
    requires IsLetter(x) && IsLetter(y)
    ensures ParseSide([x, '+', y]) == Success([StructuralFormula([x], 1), StructuralFormula([y], 1)])
  {
    StripTightPair(x, y);
    TightPairPieces(x, y);
  }

  /** `x + y -> z`, spaced as in the entry point, parses to reactants x, y and product z. */
  lemma SpacedEquation(x: char, y: char, z: char)
    requires IsLetter(x) && IsLetter(y) && IsLetter(z)
    ensures ParseEquation([x, ' ', '+', ' ', y, ' ', '-', '>', ' ', z]) ==
      Success(([StructuralFormula([x], 1), StructuralFormula([y], 1)], [StructuralFormula([z], 1)]))
  {
    var lhs, rhs := [x, ' ', '+', ' ', y, ' '], [' ', z];
    StripSpacedEquation(x, y, z);
    SplitOnce(lhs, "->", rhs);
    SpacedPairSide(x, y);
    StripSpacedSingle(z);
    LetterSide(rhs, z);
  }

  /** `x->y+z`, unspaced as in the entry point, parses to reactant x and products y, z. */
  lemma TightEquation(x: char, y: char, z: char)
    requires IsLetter(x) && IsLetter(y) && IsLetter(z)
    ensures ParseEquation([x, '-', '>', y, '+', z]) ==
      Success(([StructuralFormula([x], 1)], [StructuralFormula([y], 1), StructuralFormula([z], 1)]))
  {
    var lhs, rhs := [x], [y, '+', z];
    StripTightEquation(x, y, z);
    SplitOnce(lhs, "->", rhs);
    StripTightSingle(x);
    LetterSide(lhs, x);
    TightPairSide(y, z);
  }

  /** `'A + B -> C'` parses to the reactants A, B and the product C, each with coefficient 1. */
  lemma ForwardEquationParses(equation: string)
    requires equation == "A + B -> C"
    ensures ParseEquation(equation) ==
      Success(([StructuralFormula("A", 1), StructuralFormula("B", 1)], [StructuralFormula("C", 1)]))
  {
    assert equation == ['A', ' ', '+', ' ', 'B', ' ', '-', '>', ' ', 'C'];
    SpacedEquation('A', 'B', 'C');
  }

  /** `'C->A+B'` parses to the reactant C and the products A, B, each with coefficient 1. */
  lemma BackwardEquationParses(equation: string)
    requires equation == "C->A+B"
    ensures ParseEquation(equation) ==
      Success(([StructuralFormula("C", 1)], [StructuralFormula("A", 1), StructuralFormula("B", 1)]))
  {
    assert equation == ['C', '-', '>', 'A', '+', 'B'];
    TightEquation('C', 'A', 'B');
  }

  lemma DemoLabels()
    ensures Label(DEMO_RULES[0].reactants, NAMES) == [StructuralFormula("A", 1), StructuralFormula("B", 1)]
    ensures Label(DEMO_RULES[0].products, NAMES) == [StructuralFormula("C", 1)]
    ensures Label(DEMO_RULES[1].reactants, NAMES) == [StructuralFormula("C", 1)]
    ensures Label(DEMO_RULES[1].products, NAMES) == [StructuralFormula("A", 1), StructuralFormula("B", 1)]
  {
  }

  /**
    The entry point's two equations, `'A + B -> C'` and `'C->A+B'`, parse
    to the demonstration rules with positions 0, 1 and 2 read as A, B and C.
  */
  lemma DemoRulesFromEquations(forwardEquation: string, backwardEquation: string)
    requires forwardEquation == "A + B -> C" && backwardEquation == "C->A+B"
    ensures ParseEquation(forwardEquation) ==
      Success((Label(DEMO_RULES[0].reactants, NAMES), Label(DEMO_RULES[0].products, NAMES)))
    ensures ParseEquation(backwardEquation) ==
      Success((Label(DEMO_RULES[1].reactants, NAMES), Label(DEMO_RULES[1].products, NAMES)))
  {
    ForwardEquationParses(forwardEquation);
    BackwardEquationParses(backwardEquation);
    DemoLabels();
  }

  // ---------------------------------------------------------------------
  // Conservation

  /** The three quantities the demonstration network conserves, on a population of three. */
  predicate Conserved(pop: seq<int>)
  {
    |pop| == 3 && pop[0] + pop[2] == 100 && pop[1] + pop[2] == 100 && pop[0] == pop[1]
  }

  /** Either firing keeps A + C, B + C and A - B. */
  lemma DemoFirePreserves(k: nat, pop: seq<int>)
    requires k < 2 && |pop| == 3
    ensures var next := Fire(DEMO_RULES[k], pop);
      && next[0] + next[2] == pop[0] + pop[2]
      && next[1] + next[2] == pop[1] + pop[2]
      && next[0] - next[1] == pop[0] - pop[1]
  {
    var rxn := DEMO_RULES[k];
    assert rxn.reactants[..0] == [] && rxn.products[..0] == [];
    assert |rxn.reactants| == 1 ==> rxn.reactants[..1] == rxn.reactants;
    assert |rxn.products| == 1 ==> rxn.products[..1] == rxn.products;
    assert |rxn.reactants| == 2 ==> rxn.reactants[..1] == [rxn.reactants[0]];
    assert |rxn.products| == 2 ==> rxn.products[..1] == [rxn.products[0]];
  }

  /** From 50 of each, any sequence of firings keeps A + C = B + C = 100 and A = B. */
  lemma {:induction false} DemoTrajectory(fired: seq<nat>)
    requires forall k :: 0 <= k < |fired| ==> fired[k] < 2
    ensures Conserved(FireAll(DEMO_RULES, [50, 50, 50], fired))
  {
    if fired != [] {
      var prefix := fired[..|fired| - 1];
      DemoTrajectory(prefix);
      DemoFirePreserves(fired[|fired| - 1], FireAll(DEMO_RULES, [50, 50, 50], prefix));
    }
  }

  /** Each rule consumes every species at most once, at a non-negative rate. */
  lemma DemoRulesSafe()
    ensures AllUnitReactants(DEMO_RULES) && RatesNonNegative(DEMO_RULES)
  {
    var r0, r1 := DEMO_RULES[0].reactants, DEMO_RULES[1].reactants;
    assert r0[..1] == [r0[0]] && r0[..0] == [] && r1[..0] == [];
    assert Coefficient(r0, 0) == 1 && Coefficient(r0, 1) == 1;
    assert Coefficient(r1, 2) == 1;
    assert UnitReactants(DEMO_RULES[0]) && UnitReactants(DEMO_RULES[1]);
  }

  lemma PowOne(x: real)
    ensures Pow(x, 1) == x
  {
  }

  /** The propensities of the two rules are A * B and C. */
  lemma DemoPropensities(pop: seq<int>)
    requires |pop| == 3
    ensures Propensities(DEMO_RULES, pop) == [(pop[0] as real) * (pop[1] as real), pop[2] as real]
  {
    var r0, r1 := DEMO_RULES[0].reactants, DEMO_RULES[1].reactants;
    assert r0[..1] == [r0[0]] && r0[..0] == [] && r1[..0] == [];
    PowOne(pop[0] as real);
    PowOne(pop[1] as real);
    PowOne(pop[2] as real);
    assert ReactantFactor(r0[..1], pop) == pop[0] as real;
    assert ReactantFactor(r0, pop) == (pop[0] as real) * (pop[1] as real);
    assert ReactantFactor(r1, pop) == pop[2] as real;
  }

  /** On a conserved, non-negative population some reaction can always fire. */
  lemma DemoTotalPositive(pop: seq<int>)
    requires Conserved(pop) && NonNegative(pop)
    ensures Total(Propensities(DEMO_RULES, pop)) > 0.0
  {
    var p := Propensities(DEMO_RULES, pop);
    DemoPropensities(pop);
    assert Tally(p, 1) == p[0];
    assert Total(p) == p[0] + p[1];
    var a, c := pop[0] as real, pop[2] as real;
    assert p[0] == a * a;
    if pop[2] == 0 {
      assert a == 100.0;
    }
  }

  /** From 50 of each the propensities are 2500 and 50, and their total is 2550. */
  lemma DemoStartPropensities()
    ensures Propensities(DEMO_RULES, [50, 50, 50]) == [2500.0, 50.0]
    ensures Total(Propensities(DEMO_RULES, [50, 50, 50])) == 2550.0
  {
    DemoPropensities([50, 50, 50]);
    assert Tally([2500.0, 50.0], 1) == 2500.0;
  }

  // ---------------------------------------------------------------------
  // Clients of the engine

  /**
    The entry point's run to time 10, with the random draws supplied: the
    populations stay conserved and non-negative, and the run never fails.
  */
  method RunDemo(dts: seq<real>, rs: seq<real>) returns (outcome: RunOutcome, counts: seq<int>, t: real)
    requires |dts| == |rs| && forall k :: 0 <= k < |rs| ==> 0.0 <= rs[k] < 1.0
    ensures Conserved(counts) && NonNegative(counts)
    ensures outcome.ReachedTime? || outcome.OutOfDraws?
    ensures outcome.ReachedTime? ==> t >= 10.0
  {
    var initialValues := new int[3](_ => 50);
    assert initialValues[..] == [50, 50, 50];
    var g := new Gillespie(initialValues, DEMO_RULES);
    DemoRulesSafe();
    ghost var start := g.chemicalList[..];
    assert NonNegative(start);
    ghost var fired, starts;
    outcome, fired, starts := g.Run(10.0, dts, rs);
    counts := g.chemicalList[..];
    t := g.T;
    assert NonNegative(counts) && !(outcome.Stopped? && outcome.failed.NoReaction?);
    DemoTrajectory(fired);
    assert Conserved(counts);
    if outcome.Stopped? {
      assert outcome.failed.ZeroTotalPropensity?;
      DemoTotalPositive(counts);
      assert false;
    }
  }

  /**
    One step from 50 of each with threshold 0 fires `A + B -> C`; a reset
    then puts the time back to 0 but leaves the counts at 49, 49, 51,
    because the initial values are the live population object.
  */
  method ResetAfterStep() returns (counts: seq<int>, t: real)
    ensures t == 0.0 && counts == [49, 49, 51]
  {
    var initialValues := new int[3](_ => 50);
    assert initialValues[..] == [50, 50, 50];
    var g := new Gillespie(initialValues, DEMO_RULES);
    ghost var start := g.chemicalList[..];
    DemoStartPropensities();
    var outcome := g.Step(1.0, 0.0);
    assert g.propensities[..] == [2500.0, 50.0];
    assert g.totalP == 2550.0;
    assert Crosses(g.propensities[..], g.totalP, 0.0, 0);
    DemoFirePreserves(0, [50, 50, 50]);
    g.Reset();
    counts := g.chemicalList[..];
    t := g.T;
  }
}
