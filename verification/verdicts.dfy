/**
 * The argument simulators whose verdict does not depend on any input: each
 * builds a fixed value (or a chain it then ignores) and returns a constant.
 */
module Verdicts {
  import opened Wrappers
  import opened Cosmological

  /** The creature of the moral argument: it knows good and it knows evil. */
  datatype Creature = Creature(knowsGood: bool, knowsEvil: bool)

  /** `simulateMoral`: a creature built knowing good and evil knows both. */
  function SimulateMoral(): (r: bool)
    ensures r
  {
    var creature := Creature(true, true);
    creature.knowsGood && creature.knowsEvil
  }

  /** `simulateReason`: reasoning is always possible. */
  function SimulateReason(): (r: bool)
    ensures r
  {
    true
  }

  /** `simulateContingency`: ten contingent things, all `true`, pass `every(Boolean)`. */
  function SimulateContingency(): (r: bool)
    ensures r
  {
    var contingentThings := seq(10, _ => true);
    forall t <- contingentThings :: t
  }

  /**
   * `simulateSustainer`: every contingent thing is sustained (the predicate
   * accepts each of them) and god exists and sustains itself.
   */
  function SimulateSustainer(): (r: bool)
    ensures r
  {
    var contingentThings := ["Earth", "Sun", "Stars", "Creatures"];
    var allSustained := forall t <- contingentThings :: Sustained(t);
    var godExists := true;
    var godSelfSustaining := true;
    allSustained && godExists && godSelfSustaining
  }

  /** The sustaining predicate of `simulateSustainer`: it holds of everything. */
  predicate Sustained(thing: string)
  {
    true
  }

  /**
   * The chain of `simulateInfiniteRegress`: `chainDepth` nodes (none when
   * `chainDepth` is not positive), the first without predecessor and each
   * later one caused by the one before; `current` is the last one, or `None`.
   */
  method BuildRegressChain(chainDepth: int) returns (chain: seq<Cause>, current: Option<nat>)
    ensures |chain| == if chainDepth <= 0 then 0 else chainDepth
    ensures IsChain(chain)
    ensures current == if chain == [] then None else Some(|chain| - 1)
  {
    chain := [];
    current := None;
    var i := 0;
    while i < chainDepth
      invariant 0 <= i <= if chainDepth <= 0 then 0 else chainDepth
      invariant |chain| == i
      invariant IsChain(chain)
      invariant current == if chain == [] then None else Some(|chain| - 1)
    {
      chain := chain + [Cause(current)];
      current := Some(|chain| - 1);
      i := i + 1;
    }
  }

  /** `simulateInfiniteRegress`: builds the chain, ignores it, and answers false. */
  method SimulateInfiniteRegress(chainDepth: int := 1000) returns (r: bool)
    ensures !r
  {
    var chain, current := BuildRegressChain(chainDepth);
    r := false;
  }
}
