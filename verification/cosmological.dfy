/**
 * The cosmological argument: a singly linked causal chain is built, newest
 * node last, and its root is found by following `causedBy` links.
 *
 * The chain's nodes live in an arena: a sequence of node values in the order
 * they were allocated. A reference to a node is its index in the arena and
 * allocating a node appends it. Nodes are never changed once built.
 */
module Cosmological {
  import opened Wrappers

  /** A link of the chain: the index of its predecessor, or `None`. */
  datatype Cause = Cause(causedBy: Option<nat>)

  /** Every link points to a node allocated strictly earlier. */
  ghost predicate Descending(chain: seq<Cause>)
  {
    forall i :: 0 <= i < |chain| && chain[i].causedBy.Some? ==> chain[i].causedBy.value < i
  }

  /**
   * The shape the builders produce: node 0 has no predecessor and every later
   * node's predecessor is the node allocated just before it.
   */
  ghost predicate IsChain(chain: seq<Cause>)
  {
    forall k :: 0 <= k < |chain| ==> chain[k].causedBy == if k == 0 then None else Some(k - 1)
  }

  /**
   * The nodes met when following `causedBy` from node `i`, starting with `i`
   * and ending with the node that has no predecessor.
   */
  ghost function Lineage(chain: seq<Cause>, i: nat): (path: seq<nat>)
    requires Descending(chain) && i < |chain|
    ensures |path| >= 1 && path[0] == i
    ensures forall k :: 0 <= k < |path| ==> path[k] < |chain|
    ensures forall k :: 0 <= k < |path| - 1 ==> chain[path[k]].causedBy == Some(path[k + 1])
    ensures chain[path[|path| - 1]].causedBy == None
    decreases i
  {
    match chain[i].causedBy
    case None => [i]
    case Some(j) => [i] + Lineage(chain, j)
  }

  /** The last node of `i`'s lineage: the first cause reached from `i`. */
  ghost function Root(chain: seq<Cause>, i: nat): nat
    requires Descending(chain) && i < |chain|
  {
    var path := Lineage(chain, i); path[|path| - 1]
  }

  /**
   * Follows `causedBy` from `entity` until a node without a predecessor is
   * reached; the loop terminates because every link points backwards.
   */
  method FindFirstCause(chain: seq<Cause>, entity: nat) returns (first: nat)
    requires Descending(chain) && entity < |chain|
    ensures first < |chain| && chain[first].causedBy == None
    ensures first == Root(chain, entity)
  {
    first := entity;
    while chain[first].causedBy != None
      invariant first < |chain|
      invariant Root(chain, first) == Root(chain, entity)
      decreases first
    {
      first := chain[first].causedBy.value;
    }
  }

  /**
   * Builds the chain of the cosmological argument. A `depth` below 1 is
   * raised to 1; the first node has no predecessor and each later node points
   * to the one built before it. `universe` is the last node built.
   */
  method BuildChain(depth: int) returns (chain: seq<Cause>, universe: nat)
    ensures |chain| == if depth < 1 then 1 else depth
    ensures IsChain(chain)
    ensures universe == |chain| - 1
  {
    var d := depth;
    if d < 1 {
      d := 1;
    }
    chain := [Cause(None)];
    universe := 0;
    var i := 1;
    while i < d
      invariant 1 <= i <= d
      invariant |chain| == i && universe == i - 1
      invariant IsChain(chain)
    {
      chain := chain + [Cause(Some(universe))];
      universe := |chain| - 1;
      i := i + 1;
    }
  }

  /** A chain of the builders' shape has links that point backwards. */
  lemma ChainIsDescending(chain: seq<Cause>)
    requires IsChain(chain)
    ensures Descending(chain)
  {
    forall i | 0 <= i < |chain| && chain[i].causedBy.Some?
      ensures chain[i].causedBy.value < i
    {
      assert chain[i].causedBy == if i == 0 then None else Some(i - 1);
    }
  }

  /**
   * In a chain of the builders' shape, only node 0 lacks a predecessor, and
   * following `causedBy` from node `k` visits all of `k, k-1, ..., 0`.
   */
  lemma {:induction false} ChainLineage(chain: seq<Cause>, k: nat)
    requires IsChain(chain) && k < |chain|
    ensures Descending(chain)
    ensures forall i :: 0 <= i < |chain| ==> (chain[i].causedBy == None <==> i == 0)
    ensures |Lineage(chain, k)| == k + 1 && Root(chain, k) == 0
    decreases k
  {
    ChainIsDescending(chain);
    assert chain[k].causedBy == if k == 0 then None else Some(k - 1);
    if k > 0 {
      ChainLineage(chain, k - 1);
    }
  }

  /**
   * The cosmological verdict: build the chain, find its first cause, and
   * report that one was found. The verdict is true for every depth.
   */
  method SimulateCosmological(depth: int := 10) returns (r: bool)
    ensures r
  {
    var chain, universe := BuildChain(depth);
    ChainLineage(chain, universe);
    var firstCause := FindFirstCause(chain, universe);
    assert firstCause == 0;
    // `firstCause !== null`: the root finder always yields a node of the chain.
    r := firstCause < |chain|;
  }
}
