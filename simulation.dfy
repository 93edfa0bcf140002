/**
  The Gillespie engine: the population list, the reactions, the
  propensity list allocated once, their running total and the current
  time. One step recomputes every propensity, advances the time, picks a
  reaction weighted by propensity and fires it in place.

  The two random draws of a step enter as parameters: `dt`, the time
  increment, and `r`, the threshold of the weighted choice.
*/
module Simulation {
  import opened Reactions
  import opened Selection

  /** How one step ended. */
  datatype StepOutcome =
    | Fired(rxNum: nat)            // reaction `rxNum` was performed
    | ZeroTotalPropensity          // the time update divided by a total of 0
    | NoReaction(rxNum: nat)       // the choice ran past the last reaction

  /** How a run ended. */
  datatype RunOutcome =
    | ReachedTime                  // the time is no longer below the bound
    | OutOfDraws                   // the supplied draws ran out first
    | Stopped(failed: StepOutcome) // a step failed and the run stopped there

  predicate AllInRange(reactions: seq<Reaction<nat>>, n: nat)
  {
    forall i :: 0 <= i < |reactions| ==> InRange(reactions[i], n)
  }

  predicate RatesNonNegative(reactions: seq<Reaction<nat>>)
  {
    forall i :: 0 <= i < |reactions| ==> reactions[i].rate >= 0.0
  }

  predicate AllUnitReactants(reactions: seq<Reaction<nat>>)
  {
    forall i :: 0 <= i < |reactions| ==> UnitReactants(reactions[i])
  }

  /** The propensity of every reaction against one population. */
  function Propensities(reactions: seq<Reaction<nat>>, pop: seq<int>): (p: seq<real>)
    requires AllInRange(reactions, |pop|)
    ensures |p| == |reactions|
  {
    seq(|reactions|, i requires 0 <= i < |reactions| => Propensity(reactions[i], pop))
  }

  /** The population after firing the reactions `fired` names, first to last. */
  function FireAll(reactions: seq<Reaction<nat>>, pop: seq<int>, fired: seq<nat>): (next: seq<int>)
    requires forall k :: 0 <= k < |fired| ==> fired[k] < |reactions|
    ensures |next| == |pop|
  {
    if fired == [] then pop
    else Fire(reactions[fired[|fired| - 1]], FireAll(reactions, pop, fired[..|fired| - 1]))
  }

  /**
    Reaction `x` is what a step chooses with threshold `r` from population
    `pop`, whose total propensity is not zero.
  */
  ghost predicate ChoseFrom(reactions: seq<Reaction<nat>>, pop: seq<int>, r: real, x: nat)
    requires AllInRange(reactions, |pop|)
  {
    var p := Propensities(reactions, pop);
    Total(p) != 0.0 && IsChoice(p, Total(p), r, x)
  }

  /**
    Every step of a run chose its reaction with its own threshold: the
    last of `fired` was chosen with threshold `rs[|fired| - 1]` from the
    population the earlier firings reached, and so on back to the first.
  */
  ghost predicate ChosenWith(reactions: seq<Reaction<nat>>, start: seq<int>, fired: seq<nat>, rs: seq<real>)
    requires AllInRange(reactions, |start|) && |fired| <= |rs|
    requires forall k :: 0 <= k < |fired| ==> fired[k] < |reactions|
    decreases |fired|
  {
    fired == [] ||
      var prefix := fired[..|fired| - 1];
      && ChosenWith(reactions, start, prefix, rs)
      && ChoseFrom(reactions, FireAll(reactions, start, prefix), rs[|fired| - 1], fired[|fired| - 1])
  }

  /** Appending one more chosen and fired reaction to a run. */
  lemma RunExtend(reactions: seq<Reaction<nat>>, start: seq<int>, prefix: seq<nat>, rs: seq<real>, x: nat, after: seq<int>)
    requires AllInRange(reactions, |start|) && |prefix| < |rs| && x < |reactions|
    requires forall k :: 0 <= k < |prefix| ==> prefix[k] < |reactions|
    requires ChosenWith(reactions, start, prefix, rs)
    requires ChoseFrom(reactions, FireAll(reactions, start, prefix), rs[|prefix|], x)
    requires after == Fire(reactions[x], FireAll(reactions, start, prefix))
    ensures forall k :: 0 <= k < |prefix + [x]| ==> (prefix + [x])[k] < |reactions|
    ensures FireAll(reactions, start, prefix + [x]) == after
    ensures ChosenWith(reactions, start, prefix + [x], rs)
  {
    assert (prefix + [x])[..|prefix|] == prefix;
  }

  /** Step `k` of a run chose `fired[k]` with threshold `rs[k]` from the population after the first `k` firings. */
  lemma {:induction false} ChosenWithAt(reactions: seq<Reaction<nat>>, start: seq<int>, fired: seq<nat>, rs: seq<real>, k: nat)
    requires AllInRange(reactions, |start|) && |fired| <= |rs|
    requires forall j :: 0 <= j < |fired| ==> fired[j] < |reactions|
    requires ChosenWith(reactions, start, fired, rs) && k < |fired|
    ensures ChoseFrom(reactions, FireAll(reactions, start, fired[..k]), rs[k], fired[k])
    decreases |fired|
  {
    var prefix := fired[..|fired| - 1];
    if k < |fired| - 1 {
      ChosenWithAt(reactions, start, prefix, rs, k);
      assert prefix[..k] == fired[..k] && prefix[k] == fired[k];
    }
  }

  /**
    A run whose every step chose with a threshold in [0, 1), over
    non-negative rates and reactions with unit reactants, keeps a
    non-negative population non-negative: each chosen reaction had a
    positive propensity, so every species it consumes was present.
  */
  lemma {:induction false} ChosenRunNonNegative(reactions: seq<Reaction<nat>>, start: seq<int>, fired: seq<nat>, rs: seq<real>)
    requires AllInRange(reactions, |start|) && |fired| <= |rs|
    requires forall k :: 0 <= k < |fired| ==> fired[k] < |reactions|
    requires NonNegative(start) && RatesNonNegative(reactions) && AllUnitReactants(reactions)
    requires forall k :: 0 <= k < |rs| ==> 0.0 <= rs[k] < 1.0
    requires ChosenWith(reactions, start, fired, rs)
    ensures NonNegative(FireAll(reactions, start, fired))
    decreases |fired|
  {
    if fired != [] {
      var prefix, x := fired[..|fired| - 1], fired[|fired| - 1];
      ChosenRunNonNegative(reactions, start, prefix, rs);
      var pop := FireAll(reactions, start, prefix);
      var p := Propensities(reactions, pop);
      PropensitiesNonNegative(reactions, pop);
      TotalNonNegative(p);
      ChoiceIsPositive(p, Total(p), rs[|fired| - 1], x);
      FireKeepsNonNegative(reactions[x], pop);
    }
  }

  /**
    Step `k` of a run started at time `t0` plus the first `k` increments,
    which was below `maxT`.
  */
  ghost predicate StartedBelow(starts: seq<real>, t0: real, dts: seq<real>, maxT: real)
  {
    && |starts| <= |dts|
    && forall k {:trigger starts[k]} :: 0 <= k < |starts| ==>
      starts[k] == t0 + Tally(dts, k) && starts[k] < maxT
  }

  lemma StartedBelowExtend(starts: seq<real>, t0: real, dts: seq<real>, maxT: real, t: real)
    requires StartedBelow(starts, t0, dts, maxT) && |starts| < |dts|
    requires t == t0 + Tally(dts, |starts|) && t < maxT
    ensures StartedBelow(starts + [t], t0, dts, maxT)
  {
    var ext := starts + [t];
    forall k | 0 <= k < |ext|
      ensures ext[k] == t0 + Tally(dts, k) && ext[k] < maxT
    {
      if k < |starts| {
        assert ext[k] == starts[k];
      }
    }
  }

  /**
    What a run has done so far: it fired `fired` from `start`, each chosen
    with its own threshold, reaching population `pop`; it started step k
    at `t0` plus the first k increments, below `maxT`, and its time `t` is
    `t0` plus the increments of all its steps.
  */
  ghost predicate History(reactions: seq<Reaction<nat>>, start: seq<int>, fired: seq<nat>, rs: seq<real>,
                          pop: seq<int>, t0: real, dts: seq<real>, maxT: real, starts: seq<real>, t: real)
    requires AllInRange(reactions, |start|) && |dts| == |rs|
  {
    && |fired| <= |dts|
    && (forall k :: 0 <= k < |fired| ==> fired[k] < |reactions|)
    && pop == FireAll(reactions, start, fired)
    && ChosenWith(reactions, start, fired, rs)
    && t == t0 + Tally(dts, |fired|)
    && |starts| == |fired| && StartedBelow(starts, t0, dts, maxT)
  }

  /** A run that takes one more step, chosen and fired from where it was. */
  lemma HistoryExtend(reactions: seq<Reaction<nat>>, start: seq<int>, fired: seq<nat>, rs: seq<real>,
                      pop: seq<int>, t0: real, dts: seq<real>, maxT: real, starts: seq<real>, t: real,
                      x: nat, after: seq<int>)
    requires AllInRange(reactions, |start|) && |dts| == |rs|
    requires History(reactions, start, fired, rs, pop, t0, dts, maxT, starts, t)
    requires |fired| < |dts| && t < maxT && x < |reactions|
    requires ChoseFrom(reactions, pop, rs[|fired|], x) && after == Fire(reactions[x], pop)
    ensures History(reactions, start, fired + [x], rs, after, t0, dts, maxT, starts + [t], t + dts[|fired|])
  {
    RunExtend(reactions, start, fired, rs, x, after);
    StartedBelowExtend(starts, t0, dts, maxT, t);
  }

  /**
    Where a run stands once a step failed: the run so far fired `fired`
    from `start` as History says, and the failed step started at `t0` plus
    the first `|fired|` increments, below `maxT`, from population `pop`,
    whose propensities `props` and total `tot` it computed. It failed on a
    zero total without moving the time, or after moving the time because
    the choice with its threshold ran past the last reaction, which cannot
    happen on non-negative counts and rates and a threshold in [0, 1).
  */
  ghost predicate Halted(reactions: seq<Reaction<nat>>, start: seq<int>, fired: seq<nat>, rs: seq<real>,
                         pop: seq<int>, t0: real, dts: seq<real>, maxT: real, starts: seq<real>, t: real,
                         failed: StepOutcome, props: seq<real>, tot: real)
    requires AllInRange(reactions, |start|) && |dts| == |rs|
  {
    && |fired| < |dts|
    && (forall k :: 0 <= k < |fired| ==> fired[k] < |reactions|)
    && pop == FireAll(reactions, start, fired)
    && ChosenWith(reactions, start, fired, rs)
    && |starts| == |fired| + 1 && StartedBelow(starts, t0, dts, maxT)
    && props == Propensities(reactions, pop) && tot == Total(props)
    && !failed.Fired?
    && (failed.ZeroTotalPropensity? <==> tot == 0.0)
    && (failed.ZeroTotalPropensity? ==> t == t0 + Tally(dts, |fired|))
    && (failed.NoReaction? ==>
          && failed.rxNum == |reactions| && ChoseFrom(reactions, pop, rs[|fired|], |reactions|)
          && t == t0 + Tally(dts, |fired| + 1))
    && (NonNegative(pop) && RatesNonNegative(reactions) && 0.0 <= rs[|fired|] < 1.0 ==> failed.ZeroTotalPropensity?)
  }

  /**
    What a run that ended shows, from where its loop stopped: `History`
    when no step failed, `Halted` when one did.
  */
  lemma RunEnd(reactions: seq<Reaction<nat>>, start: seq<int>, fired: seq<nat>, rs: seq<real>,
               pop: seq<int>, t0: real, dts: seq<real>, maxT: real, starts: seq<real>, t: real,
               outcome: RunOutcome, props: seq<real>, tot: real, props0: seq<real>, tot0: real)
    requires AllInRange(reactions, |start|) && |dts| == |rs|
    requires !outcome.Stopped? ==>
      && History(reactions, start, fired, rs, pop, t0, dts, maxT, starts, t)
      && Refreshed(reactions, start, fired, |starts|, props, tot, props0, tot0)
    requires outcome.Stopped? ==> Halted(reactions, start, fired, rs, pop, t0, dts, maxT, starts, t, outcome.failed, props, tot)
    ensures |fired| <= |dts| && forall k :: 0 <= k < |fired| ==> fired[k] < |reactions|
    ensures pop == FireAll(reactions, start, fired)
    ensures outcome.Stopped? ==> !outcome.failed.Fired?
    ensures outcome.Stopped? && outcome.failed.ZeroTotalPropensity? ==> Total(Propensities(reactions, pop)) == 0.0
    ensures NonNegative(start) && RatesNonNegative(reactions) && AllUnitReactants(reactions)
            && (forall k :: 0 <= k < |rs| ==> 0.0 <= rs[k] < 1.0) ==>
      NonNegative(pop) && !(outcome.Stopped? && outcome.failed.NoReaction?)
    ensures ChosenWith(reactions, start, fired, rs)
    ensures outcome.Stopped? ==> |fired| < |dts|
    ensures outcome.Stopped? && outcome.failed.NoReaction? ==>
      outcome.failed.rxNum == |reactions| && ChoseFrom(reactions, pop, rs[|fired|], |reactions|)
    ensures |starts| == if outcome.Stopped? then |fired| + 1 else |fired|
    ensures StartedBelow(starts, t0, dts, maxT)
    ensures outcome.Stopped? && outcome.failed.NoReaction? ==> t == t0 + Tally(dts, |fired| + 1)
    ensures !(outcome.Stopped? && outcome.failed.NoReaction?) ==> t == t0 + Tally(dts, |fired|)
    ensures Refreshed(reactions, start, fired, |starts|, props, tot, props0, tot0)
  {
    if outcome.Stopped? {
      RefreshedStopped(reactions, start, fired, props, tot, props0, tot0);
    }
    if NonNegative(start) && RatesNonNegative(reactions) && AllUnitReactants(reactions)
       && (forall k :: 0 <= k < |rs| ==> 0.0 <= rs[k] < 1.0) {
      ChosenRunNonNegative(reactions, start, fired, rs);
    }
  }

  /**
    What the propensity list `props` and its total `tot` hold after `n`
    steps of a run that fired `fired`: the values `props0` and `tot0` it
    started with when no step was taken, and otherwise the propensities of
    the population the last step started from, and their sum.
  */
  ghost predicate Refreshed(reactions: seq<Reaction<nat>>, start: seq<int>, fired: seq<nat>, n: nat,
                            props: seq<real>, tot: real, props0: seq<real>, tot0: real)
    requires AllInRange(reactions, |start|)
    requires forall k :: 0 <= k < |fired| ==> fired[k] < |reactions|
  {
    if n == 0 then props == props0 && tot == tot0
    else
      && n - 1 <= |fired|
      && props == Propensities(reactions, FireAll(reactions, start, fired[..n - 1]))
      && tot == Total(props)
  }

  /** A step that fired `x` leaves the propensities of the population before it. */
  lemma RefreshedFired(reactions: seq<Reaction<nat>>, start: seq<int>, fired: seq<nat>, x: nat,
                       props: seq<real>, tot: real, props0: seq<real>, tot0: real)
    requires AllInRange(reactions, |start|) && x < |reactions|
    requires forall k :: 0 <= k < |fired| ==> fired[k] < |reactions|
    requires props == Propensities(reactions, FireAll(reactions, start, fired)) && tot == Total(props)
    ensures forall k :: 0 <= k < |fired + [x]| ==> (fired + [x])[k] < |reactions|
    ensures Refreshed(reactions, start, fired + [x], |fired| + 1, props, tot, props0, tot0)
  {
    assert (fired + [x])[..|fired|] == fired;
  }

  /** A step that failed leaves the propensities of the population it started from. */
  lemma RefreshedStopped(reactions: seq<Reaction<nat>>, start: seq<int>, fired: seq<nat>,
                         props: seq<real>, tot: real, props0: seq<real>, tot0: real)
    requires AllInRange(reactions, |start|)
    requires forall k :: 0 <= k < |fired| ==> fired[k] < |reactions|
    requires props == Propensities(reactions, FireAll(reactions, start, fired)) && tot == Total(props)
    ensures Refreshed(reactions, start, fired, |fired| + 1, props, tot, props0, tot0)
  {
    assert fired[..|fired|] == fired;
  }

  /** Non-negative counts and rates give non-negative propensities. */
  lemma PropensitiesNonNegative(reactions: seq<Reaction<nat>>, pop: seq<int>)
    requires AllInRange(reactions, |pop|) && NonNegative(pop) && RatesNonNegative(reactions)
    ensures NonNegativeWeights(Propensities(reactions, pop))
  {
    forall i | 0 <= i < |reactions|
      ensures Propensities(reactions, pop)[i] >= 0.0
    {
      PropensityNonNegative(reactions[i], pop);
    }
  }

  lemma {:induction false} ZeroTally(p: seq<real>, k: nat)
    requires k <= |p| && forall i :: 0 <= i < |p| ==> p[i] == 0.0
    ensures Tally(p, k) == 0.0
  {
    if k > 0 {
      ZeroTally(p, k - 1);
    }
  }

  /** When every rate is zero the total propensity is zero, whatever the counts. */
  lemma ZeroRatesZeroTotal(reactions: seq<Reaction<nat>>, pop: seq<int>)
    requires AllInRange(reactions, |pop|)
    requires forall i :: 0 <= i < |reactions| ==> reactions[i].rate == 0.0
    ensures Total(Propensities(reactions, pop)) == 0.0
  {
    ZeroTally(Propensities(reactions, pop), |reactions|);
  }

  class Gillespie {
    /** The population object handed to the constructor. */
    const initialValues: array<int>
    /** The live population; the constructor and `Reset` bind it to `initialValues`. */
    var chemicalList: array<int>
    const reactions: seq<Reaction<nat>>
    /** One slot per reaction, allocated once and overwritten by every step. */
    const propensities: array<real>
    var totalP: real
    var T: real

    ghost predicate Valid()
      reads this
    {
      && chemicalList == initialValues
      && propensities.Length == |reactions|
      && AllInRange(reactions, chemicalList.Length)
    }

    /**
      Binds the live population to the very object passed in (no copy), and
      allocates a zeroed propensity list with one slot per reaction.
    */
    constructor (initialValues: array<int>, reactions: seq<Reaction<nat>>)
      requires AllInRange(reactions, initialValues.Length)
      ensures Valid()
      ensures this.initialValues == initialValues && chemicalList == initialValues
      ensures this.reactions == reactions
      ensures fresh(propensities) && forall i :: 0 <= i < propensities.Length ==> propensities[i] == 0.0
      ensures totalP == 0.0 && T == 0.0
    {
      this.initialValues := initialValues;
      this.chemicalList := initialValues;
      this.reactions := reactions;
      this.propensities := new real[|reactions|](_ => 0.0);
      this.totalP := 0.0;
      this.T := 0.0;
    }

    /**
      Sets the time back to 0 and rebinds the live population to
      `initialValues`, which is the object the steps have been changing:
      the counts are not restored.
    */
    method Reset()
      requires Valid()
      modifies this`T, this`chemicalList
      ensures Valid()
      ensures T == 0.0 && chemicalList == initialValues
      ensures chemicalList[..] == old(chemicalList[..])
    {
      T := 0.0;
      chemicalList := initialValues;
    }

    /** Overwrites each slot with its reaction's propensity and keeps their running sum. */
    method CalculatePropensities()
      requires Valid()
      modifies this`totalP, propensities
      ensures Valid()
      ensures propensities[..] == Propensities(reactions, chemicalList[..])
      ensures totalP == Total(propensities[..])
    {
      totalP := 0.0;
      var i := 0;
      while i < |reactions|
        invariant 0 <= i <= |reactions|
        invariant forall j :: 0 <= j < i ==> propensities[j] == Propensity(reactions[j], chemicalList[..])
        invariant totalP == Tally(propensities[..], i)
      {
        ghost var before := propensities[..];
        propensities[i] := GetPropensity(reactions[i], chemicalList);
        assert propensities[..][..i] == before[..i];
        TallyPrefix(propensities[..], before, i);
        totalP := totalP + propensities[i];
        i := i + 1;
      }
      assert propensities[..] == Propensities(reactions, chemicalList[..]);
    }

    /** The time advances by the supplied increment; the source divides by `totalP` here. */
    method UpdateTime(dt: real)
      requires totalP != 0.0
      modifies this`T
      ensures T == old(T) + dt
    {
      T := T + dt;
    }

    /** The weighted choice against threshold `r` over the current propensities. */
    method ChooseReaction(r: real) returns (rxNum: nat)
      requires propensities.Length > 0 ==> totalP != 0.0
      ensures IsChoice(propensities[..], totalP, r, rxNum)
    {
      rxNum := 0;
      var tally := 0.0;
      while rxNum < propensities.Length
        invariant rxNum <= propensities.Length
        invariant tally == Tally(propensities[..], rxNum)
        invariant forall j :: 0 <= j < rxNum ==> !Crosses(propensities[..], totalP, r, j)
      {
        tally := tally + propensities[rxNum];
        if tally / totalP > r {
          break;
        }
        rxNum := rxNum + 1;
      }
    }

    /**
      One step: recompute the propensities; fail if their total is 0
      (before the time moves); advance the time by `dt`; choose with `r`;
      fail if the choice is past the last reaction (after the time moved);
      otherwise fire the chosen reaction in place.
    */
    method Step(dt: real, r: real) returns (outcome: StepOutcome)
      requires Valid()
      modifies this`T, this`totalP, propensities, chemicalList
      ensures Valid()
      ensures propensities[..] == Propensities(reactions, old(chemicalList[..]))
      ensures totalP == Total(propensities[..])
      ensures outcome.ZeroTotalPropensity? <==> totalP == 0.0
      ensures outcome.ZeroTotalPropensity? ==> T == old(T)
      ensures !outcome.ZeroTotalPropensity? ==> T == old(T) + dt
      ensures outcome.Fired? ==>
        && outcome.rxNum < |reactions|
        && IsChoice(propensities[..], totalP, r, outcome.rxNum)
        && ChoseFrom(reactions, old(chemicalList[..]), r, outcome.rxNum)
        && chemicalList[..] == Fire(reactions[outcome.rxNum], old(chemicalList[..]))
      ensures !outcome.Fired? ==> chemicalList[..] == old(chemicalList[..])
      ensures outcome.NoReaction? ==>
        && outcome.rxNum == |reactions| && IsChoice(propensities[..], totalP, r, |reactions|)
        && ChoseFrom(reactions, old(chemicalList[..]), r, |reactions|)
      ensures NonNegative(old(chemicalList[..])) && RatesNonNegative(reactions) && 0.0 <= r < 1.0
              && !outcome.ZeroTotalPropensity? ==>
        outcome.Fired? && propensities[outcome.rxNum] > 0.0
    {
      CalculatePropensities();
      if totalP == 0.0 {
        return ZeroTotalPropensity;
      }
      UpdateTime(dt);
      var rxNum := ChooseReaction(r);
      ghost var wellPosed := NonNegative(chemicalList[..]) && RatesNonNegative(reactions) && 0.0 <= r < 1.0;
      if wellPosed {
        PropensitiesNonNegative(reactions, chemicalList[..]);
        TotalNonNegative(propensities[..]);
        ChoiceIsPositive(propensities[..], totalP, r, rxNum);
      }
      if rxNum >= |reactions| {
        return NoReaction(rxNum);
      }
      PerformReaction(reactions[rxNum], chemicalList);
      outcome := Fired(rxNum);
    }

    /**
      Repeats `Step` while the time is below `maxT`, drawing the i-th step's
      `dt` and `r` from `dts[i]` and `rs[i]`; a failing step ends the run.
    */
    method Run(maxT: real, dts: seq<real>, rs: seq<real>) returns (outcome: RunOutcome, ghost fired: seq<nat>, ghost starts: seq<real>)
      requires Valid() && |dts| == |rs|
      modifies this`T, this`totalP, propensities, chemicalList
      ensures Valid()
      ensures |fired| <= |dts| && forall k :: 0 <= k < |fired| ==> fired[k] < |reactions|
      ensures chemicalList[..] == FireAll(reactions, old(chemicalList[..]), fired)
      ensures outcome.ReachedTime? ==> T >= maxT
      ensures outcome.OutOfDraws? ==> |fired| == |dts| && T < maxT
      ensures outcome.Stopped? ==> !outcome.failed.Fired?
      ensures outcome.Stopped? && outcome.failed.ZeroTotalPropensity? ==>
        Total(Propensities(reactions, chemicalList[..])) == 0.0
      ensures NonNegative(old(chemicalList[..])) && RatesNonNegative(reactions) && AllUnitReactants(reactions)
              && (forall k :: 0 <= k < |rs| ==> 0.0 <= rs[k] < 1.0) ==>
        NonNegative(chemicalList[..]) && !(outcome.Stopped? && outcome.failed.NoReaction?)
      ensures ChosenWith(reactions, old(chemicalList[..]), fired, rs)
      ensures outcome.Stopped? ==> |fired| < |dts|
      ensures outcome.Stopped? && outcome.failed.NoReaction? ==>
        outcome.failed.rxNum == |reactions| && ChoseFrom(reactions, chemicalList[..], rs[|fired|], |reactions|)
      ensures |starts| == if outcome.Stopped? then |fired| + 1 else |fired|
      ensures StartedBelow(starts, old(T), dts, maxT)
      ensures outcome.Stopped? && outcome.failed.NoReaction? ==> T == old(T) + Tally(dts, |fired| + 1)
      ensures !(outcome.Stopped? && outcome.failed.NoReaction?) ==> T == old(T) + Tally(dts, |fired|)
      ensures Refreshed(reactions, old(chemicalList[..]), fired, |starts|, propensities[..], totalP, old(propensities[..]), old(totalP))
    {
      ghost var start := chemicalList[..];
      ghost var T0 := T;
      ghost var P0, total0 := propensities[..], totalP;
      fired, starts := [], [];
      outcome := ReachedTime;
      var i := 0;
      while T < maxT && !outcome.Stopped?
        invariant Valid() && i == |fired| && (outcome.ReachedTime? || outcome.Stopped?)
        invariant outcome.ReachedTime? ==>
          && History(reactions, start, fired, rs, chemicalList[..], T0, dts, maxT, starts, T)
          && Refreshed(reactions, start, fired, |starts|, propensities[..], totalP, P0, total0)
        invariant outcome.Stopped? ==>
          Halted(reactions, start, fired, rs, chemicalList[..], T0, dts, maxT, starts, T, outcome.failed, propensities[..], totalP)
        decreases |dts| - i, if outcome.Stopped? then 0 else 1
      {
        if i == |dts| {
          outcome := OutOfDraws;
          break;
        }
        ghost var pop, t := chemicalList[..], T;
        var stepped := Step(dts[i], rs[i]);
        if stepped.Fired? {
          HistoryExtend(reactions, start, fired, rs, pop, T0, dts, maxT, starts, t, stepped.rxNum, chemicalList[..]);
          RefreshedFired(reactions, start, fired, stepped.rxNum, propensities[..], totalP, P0, total0);
          fired, starts := fired + [stepped.rxNum], starts + [t];
          i := i + 1;
        } else {
          StartedBelowExtend(starts, T0, dts, maxT, t);
          starts := starts + [t];
          outcome := Stopped(stepped);
        }
      }
      RunEnd(reactions, start, fired, rs, chemicalList[..], T0, dts, maxT, starts, T, outcome, propensities[..], totalP, P0, total0);
    }
  }

  lemma TallyPrefix(p: seq<real>, q: seq<real>, k: nat)
    requires k <= |p| && k <= |q| && p[..k] == q[..k]
    ensures Tally(p, k) == Tally(q, k)
  {
    if k > 0 {
      assert p[..k - 1] == q[..k - 1];
      TallyPrefix(p, q, k - 1);
      assert p[k - 1] == p[..k][k - 1];
    }
  }
}
