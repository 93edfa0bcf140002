# Gillespie stochastic simulation, modelled in Dafny

This project models `Gillespie.py`, a small implementation of Gillespie's
stochastic simulation algorithm. It also models the parser that turns
reaction equations such as `A + B -> C` into reactions.

- `reactions.dfy`, module `Reactions`:
  - `StructuralFormula`, a species with its coefficient, and `Reaction`, the reactants, the products and a rate.
  - `GetPropensity` (`Reaction.getPropensity`): the rate multiplied by each reactant count, once per unit of coefficient.
  - `PerformReaction` (`Reaction.performReaction`): updates the population array in place.
- `parsing.dfy`, module `Parsing`: the equation parser (`Reaction.parseRxn`, `Reaction.parseFullRxn`).
  - `str.strip` and `str.split` are written out.
  - The two `re.search` calls become scans for the first run of ASCII digits and the first run of ASCII letters.
  - A piece without a letter, and an equation without exactly one `->`, become error results.
- `selection.dfy`, module `Selection`: the weighted choice of `chooseReaction`.
  - The running sum of the propensities (`Tally`) and its total (`Total`).
  - The stop test `tally / totalP > r`.
  - `IsChoice`, which says which index the loop returns.
- `simulation.dfy`, module `Simulation`: class `Gillespie`.
  - Fields: `initialValues`, `chemicalList`, `reactions`, `propensities` (an array allocated once), `totalP` and `T`.
  - Methods: the constructor, `Reset`, `CalculatePropensities`, `UpdateTime`, `ChooseReaction`, `Step` and `Run`.
  - The two random draws of a step are parameters: `dt` is the time increment and `r` is the choice threshold.
  - The two crashes of `step` become outcomes:
    - `ZeroTotalPropensity` is the division by a zero `totalP`.
    - `NoReaction` is indexing one past the last reaction.
- `demo.dfy`, module `Demo`: the entry point's network.
  - Rules `A + B -> C` and `C -> A + B` at rate 1, starting from 50 molecules of each species.
  - Its equations parse to these rules.
  - Any run keeps A + C = B + C = 100 and A = B.
  - A run never fails and never goes negative.
  - `reset` restores the time but not the counts.

Species in the engine are positions in an `array<int>` of counts. This is the list form of the population that the source's commented-out construction uses. The parser produces species labelled by strings.

Three behaviours of the code shape the model:
- **Reset.** `reset` restores only `T`. `__init__` binds `initialValues` and `chemicalList` to the same object (Gillespie.py:91-92), so the assignment in `reset` (Gillespie.py:105) rebinds the live population to itself and the counts stay as the steps left them (`Simulation.Gillespie.Reset`, `Demo.ResetAfterStep`).
- **Negative counts.** No count is checked against going negative, in `performReaction` or anywhere else, and the model checks nothing either. Non-negativity is proved only for reactions that consume each species at most once (`Reactions.FireKeepsNonNegative`, `Simulation.ChosenRunNonNegative`). `Reactions.HigherOrderCanGoNegative` shows that `2 A -> B` fired from one A gives -1.
- **End of a run.** `run` has no end state other than reaching `maxT`. A zero total propensity raises at the division `1/self.totalP` in `updateTime` (Gillespie.py:142), which the model reports as the outcome `ZeroTotalPropensity`.

## Model

| member | source | states |
|---|---|---|
| Reactions.Propensity | Gillespie.py:69-75 | with no reactants the propensity is exactly the rate |
| Reactions.GetPropensity | Gillespie.py:69-75 | the nested loop returns rate × Π count^coefficient over the reactants; the population array is only read |
| Reactions.PropensityNonNegative | Gillespie.py:69-75 | a non-negative rate and non-negative counts give a non-negative propensity |
| Reactions.PropensityZeroWhenDepleted | Gillespie.py:72-74 | a reactant with coefficient ≥ 1 and count 0 makes the propensity 0 |
| Reactions.PerformReaction | Gillespie.py:77-84 | each count changes by (product coefficient − reactant coefficient) of its species, summed over repeated entries; nothing else changes |
| Reactions.FireLeavesUnmentioned | Gillespie.py:81-84 | a species on neither side keeps its count |
| Reactions.FireKeepsNonNegative | Gillespie.py:77-84 | firing a reaction that has unit reactants and a non-zero propensity keeps a non-negative population non-negative |
| Reactions.HigherOrderCanGoNegative | Gillespie.py:69-84 | `2 A -> B` from one A: the propensity is 1 and firing leaves A at -1 |
| Parsing.JoinSplit | Gillespie.py:46 | joining the pieces of `split(sep)` with `sep` gives back the string |
| Parsing.SplitPiecesFree | Gillespie.py:46 | no piece of `split(sep)` contains the separator |
| Parsing.SplitFirstClear | Gillespie.py:46 | the separator occurs nowhere before the end of the first piece |
| Parsing.SplitCut | Gillespie.py:46 | a single piece is the whole string; otherwise the separator occurs right after the first piece and the remaining pieces are the split of what follows it; with SplitFirstClear, the cut is at the leftmost occurrence, overlapping separators included (`"aaa"` on `"aa"` gives `["", "a"]`) |
| Parsing.SplitOnce | Gillespie.py:40 | `a + sep + b` splits into exactly `[a, b]` when neither part holds the separator's first character |
| Parsing.StripExact | Gillespie.py:40 | `strip()` keeps exactly the span between leading and trailing whitespace |
| Parsing.Search | Gillespie.py:51-59 | no match iff no character is in the class; a match is the leftmost maximal run of the class |
| Parsing.ParseChemicalSpec | Gillespie.py:51-66 | a piece fails iff it has no letter, and the error names the piece; a label is a non-empty run of letters; a piece without digits has coefficient 1 |
| Parsing.ParsePiecesSpec | Gillespie.py:46-67 | both directions of success, the formulas in order, and the first failing piece |
| Parsing.ParseRxn | Gillespie.py:43-67 | the appending loop returns what the side specification gives, raising at the first piece without a label |
| Parsing.ParseEquationSpec | Gillespie.py:36-42 | the shape error happens iff the stripped equation does not split into two sides on `->`; the equation parses iff it has two sides and both parse, and then reactants and products are the two sides parsed; any other failure is the reactants' error if they fail, else the products' |
| Parsing.ParseFullRxn | Gillespie.py:36-42 | strip, unpack the split into two sides, parse the reactants and then the products, as the equation specification says |
| Parsing.TrailingPlusFails | Gillespie.py:46-64 | `x+` leaves an empty piece, which has no label, so the side fails naming `""` |
| Selection.TotalNonNegative | Gillespie.py:135-139 | non-negative propensities have a non-negative sum |
| Selection.ChoiceInterval | Gillespie.py:145-155 | with non-negative weights, index k is chosen iff Tally(k)/total ≤ r < Tally(k+1)/total |
| Selection.ChoiceIsPositive | Gillespie.py:145-155 | with non-negative weights, a positive total equal to their sum and 0 ≤ r < 1, the choice is a real index whose propensity is positive |
| Simulation.PropensitiesNonNegative | Gillespie.py:134-139 | non-negative counts and rates give non-negative propensities |
| Simulation.ZeroRatesZeroTotal | Gillespie.py:134-142 | all rates 0 gives total propensity 0, the case where the time update divides by zero |
| Simulation.Gillespie.constructor | Gillespie.py:88-97 | the live population is the object passed in; one zeroed propensity slot per reaction; T and totalP start at 0 |
| Simulation.Gillespie.Reset | Gillespie.py:102-105 | T becomes 0 and the live population is rebound to the initial-values object; the counts stay as the steps left them |
| Simulation.Gillespie.CalculatePropensities | Gillespie.py:134-139 | every slot holds its reaction's propensity against the live counts; totalP is their sum; the counts are untouched |
| Simulation.Gillespie.UpdateTime | Gillespie.py:141-143 | needs totalP ≠ 0; T grows by the supplied increment |
| Simulation.Gillespie.ChooseReaction | Gillespie.py:145-155 | returns the first index whose running sum over totalP is strictly above r, or the list length when none is |
| Simulation.Gillespie.Step | Gillespie.py:124-132 | propensities are refreshed; a zero total fails before the time moves; otherwise T advances by `dt`, and the reaction chosen with `r` from the population before the step (a non-zero total, the first index whose running sum over the total exceeds `r`) is fired, or the step fails past the last reaction; with non-negative counts and rates and 0 ≤ r < 1 only the zero-total failure remains, and the fired reaction has positive propensity |
| Simulation.Gillespie.Run | Gillespie.py:119-132 | while T < maxT, steps with the supplied draws; step k fired reaction `fired[k]`, the one chosen with `rs[k]` from the population the earlier firings reached, whose total propensity is not zero; step k started at old(T) plus the first k increments, below maxT; T ends at old(T) plus the increments of the steps that moved the time; the counts are the start counts after the fired reactions in order; a failed step ends the run, and when it failed past the last reaction, the choice with `rs[|fired|]` from the final population, whose total is not zero, ran past the last reaction and the reported index is the number of reactions; the propensity list and `totalP` are unchanged when no step was taken, and otherwise hold the propensities, and their sum, of the population the last step started from; with unit reactants, non-negative rates and thresholds in [0, 1) the counts stay non-negative and no step fails past the last reaction |
| Simulation.ChosenWithAt | Gillespie.py:119-132 | in a recorded run, step k chose `fired[k]` with threshold `rs[k]` from the population after the first k firings |
| Simulation.ChosenRunNonNegative | Gillespie.py:119-132 | a run whose every step chose with a threshold in [0, 1), over non-negative rates and unit reactants, keeps a non-negative population non-negative |
| Demo.ForwardEquationParses | Gillespie.py:190 | `'A + B -> C'` parses to reactants A, B and product C, coefficient 1 each |
| Demo.BackwardEquationParses | Gillespie.py:191 | `'C->A+B'` parses to reactant C and products A, B, coefficient 1 each |
| Demo.SpacedEquation | Gillespie.py:36-67 | any `x + y -> z` over letters parses to reactants x, y and product z |
| Demo.TightEquation | Gillespie.py:36-67 | any `x->y+z` over letters parses to reactant x and products y, z |
| Demo.DemoRulesFromEquations | Gillespie.py:184-192 | the two equations parse to the index-based demonstration rules, with positions 0, 1, 2 read as A, B, C |
| Demo.DemoFirePreserves | Gillespie.py:81-84 | either demonstration rule keeps A + C, B + C and A − B |
| Demo.DemoTrajectory | Gillespie.py:188-192 | from 50 of each, any sequence of firings keeps A + C = B + C = 100 and A = B |
| Demo.DemoPropensities | Gillespie.py:69-75 | the two demonstration propensities are A·B and C |
| Demo.DemoTotalPositive | Gillespie.py:134-142 | on a conserved non-negative population the total propensity is positive, so the time update never divides by zero |
| Demo.DemoStartPropensities | Gillespie.py:134-139 | from 50 of each the propensities are 2500 and 50, with total 2550 |
| Demo.RunDemo | Gillespie.py:183-198 | the entry point's run to time 10 never fails; it ends with T ≥ 10 or with the draws used up, and the counts stay conserved and non-negative |
| Demo.ResetAfterStep | Gillespie.py:102-105 | after one step with threshold 0 fires `A + B -> C`, reset gives T = 0 but counts 49, 49, 51 |

## Left out

- Random draws: `random.random()` and `math.log` are not modelled. The increment `dt` and the threshold `r` are parameters of `Step`, and `Run` takes them as sequences.
- Simulation.Gillespie.UpdateTime: does not compute `dt = log(1/u) / totalP`. It adds the supplied `dt` and keeps only the requirement that `totalP` is not 0.
- Simulation.Gillespie.Run: is bounded by the number of supplied draws (outcome `OutOfDraws`), because the source's loop ends only through the random increments.
- Floating point: counts, rates, propensities and time are exact integers and reals, so rounding in `tally / totalP > r` is not captured.
- `GillespieObserver`, `setObserver` and the observer call in `step`: file output and plotting.
- `getT` and `getChemicals`: accessors; the model reads the fields directly.
- The dictionary form of the population: only the list form is modelled. The entry point's `{'A': 50, 'B': 50, 'C': 50}` becomes positions 0, 1 and 2, and `Demo.Label` connects the labels to the positions.
- `Reaction.__init__`: the choice between an equation, strings and ready-made structural formulas, and the separate rate, is not modelled. The parser returns the two sides and the demonstration rules set the rate.
- StructuralFormula getters: read as datatype fields.
- Digits: `\d` is modelled as ASCII `0`–`9` only; `int()` of other Unicode digits is left out.
- Negative coefficients: coefficients are natural numbers. The parser produces only digit runs, but formulas built directly, as in the list form at Gillespie.py:185-187, could carry a negative coefficient, which `getPropensity` would skip through an empty `range` while `performReaction` still applies it. That case is not modelled.
- Index errors: species indices out of range of the population are excluded by precondition, and so are negative indices, which Python would accept.
- Reactions.GetPropensity: `a *= chemicalList[...]` on Python ints and floats is modelled as exact real multiplication.
