/**
 * The ontological argument: two beings are compared by whether they exist in
 * reality, and the comparison forces a flag on the lesser one.
 */
module Ontological {

  /** A being whose only attribute is a mutable flag. */
  class Being {
    var existsInReality: bool

    constructor (existsInReality: bool := false)
      ensures this.existsInReality == existsInReality
    {
      this.existsInReality := existsInReality;
    }
  }

  /**
   * `being1` is greater than `being2` when the first exists in reality and the
   * second does not. No being is greater than itself.
   */
  function IsGreater(being1: Being, being2: Being): (r: bool)
    reads being1, being2
    ensures r ==> being1 != being2
    ensures r ==> being1.existsInReality != being2.existsInReality
  {
    being1.existsInReality && !being2.existsInReality
  }

  /** "Greater than" is asymmetric: of two beings at most one is greater. */
  lemma IsGreaterAsymmetric(being1: Being, being2: Being)
    ensures IsGreater(being1, being2) ==> !IsGreater(being2, being1)
  {
  }

  /**
   * The conditional update of the argument: when `maximal` is greater than
   * `god`, `god` is made to exist in reality. Only `god`'s flag may change.
   */
  method Conclude(maximal: Being, god: Being)
    modifies god
    ensures god.existsInReality == (old(god.existsInReality) || old(IsGreater(maximal, god)))
    ensures maximal.existsInReality == old(maximal.existsInReality)
  {
    if IsGreater(maximal, god) {
      god.existsInReality := true;
    }
  }

  /**
   * Creates a non-existing `god` and an existing maximal being, applies the
   * update, and reports `god`'s flag: always true.
   */
  method SimulateOntological() returns (r: bool)
    ensures r
  {
    var god := new Being(false);
    var maximalBeing := new Being(true);
    Conclude(maximalBeing, god);
    r := god.existsInReality;
  }
}
