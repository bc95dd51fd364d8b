/**
 * The first-cause verdict: build the causal tree, run the cycle detector
 * from every entity, and conclude that a first cause exists when no cycle was
 * found and the tree is not empty.
 */
module FirstCause {
  import opened CausalTree
  import opened CycleDetector

  /**
   * `simulateFirstCause`. The entities are searched in the order `buildTree`
   * returned them, sharing one `visited` set, and the search stops at the
   * first cycle, as `Array.prototype.some` does. No built tree has a cycle,
   * so the verdict is true exactly when the tree is non-empty.
   */
  method SimulateFirstCause(chainDepth: int := 10, branches: int := 3) returns (r: bool)
    ensures r <==> chainDepth >= 1 && branches >= 1
  {
    var arena, universe := BuildTree([], chainDepth, branches, []);
    OrderedIsClosed(arena);
    var visited: set<nat> := {};
    var infiniteRegress := false;
    var i := 0;
    while i < |universe| && !infiniteRegress
      invariant 0 <= i <= |universe|
      invariant !infiniteRegress ==> visited == {}
      invariant infiniteRegress <==> exists j :: 0 <= j < i && Cyclic(arena, universe[j], {})
    {
      infiniteRegress, visited := HasCycle(arena, universe[i], visited);
      i := i + 1;
    }
    forall j | 0 <= j < |universe|
      ensures !Cyclic(arena, universe[j], {})
    {
      OrderedNotCyclic(arena, universe[j], {});
    }
    CountPositive(chainDepth, branches);
    r := !infiniteRegress && |universe| > 0;
  }
}
