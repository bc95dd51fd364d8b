/**
 * The cycle detector of the first-cause argument: a depth-first search over
 * `causedBy` edges with path-local marking. A node is added to the shared
 * `visited` set before its causes are explored and removed after they all
 * report no cycle; there is no set of finished nodes, so a cause reachable
 * along several paths is explored once per path.
 */
module CycleDetector {
  import opened CausalTree

  /** Every cause of every entity is an entity of the arena. */
  ghost predicate Closed(arena: seq<Entity>)
  {
    forall i, j :: 0 <= i < |arena| && 0 <= j < |arena[i].causedBy| ==> arena[i].causedBy[j] < |arena|
  }

  /** `y` is one of `x`'s direct causes. */
  ghost predicate Edge(arena: seq<Entity>, x: nat, y: nat)
  {
    x < |arena| && y in arena[x].causedBy
  }

  /** A non-empty sequence of entities, each a direct cause of the one before. */
  ghost predicate IsWalk(arena: seq<Entity>, w: seq<nat>)
  {
    |w| >= 1 && forall k :: 0 <= k < |w| - 1 ==> Edge(arena, w[k], w[k + 1])
  }

  /**
   * A walk from `start` that ends in a marked node or in a node it already
   * passed: exactly what makes the search answer true.
   */
  ghost predicate BadWalk(arena: seq<Entity>, w: seq<nat>, start: nat, visited: set<nat>)
  {
    IsWalk(arena, w) && w[0] == start && (w[|w| - 1] in visited || w[|w| - 1] in w[..|w| - 1])
  }

  /** Some walk from `start` runs into `visited` or into itself. */
  ghost predicate Cyclic(arena: seq<Entity>, start: nat, visited: set<nat>)
  {
    exists w :: BadWalk(arena, w, start, visited)
  }

  /** The arena's entities that are not marked. */
  ghost function Unmarked(arena: seq<Entity>, visited: set<nat>): set<nat>
  {
    set i | 0 <= i < |arena| && i !in visited
  }

  /** The nodes of a walk other than its last one: the search path that leads to it. */
  ghost function PathNodes(w: seq<nat>): set<nat>
    requires |w| >= 1
  {
    set k | 0 <= k < |w| - 1 :: w[k]
  }

  /**
   * A bad walk from a cause, with `e` marked, extends to a bad walk from `e`
   * whose path also holds `e`.
   */
  lemma ExtendBadWalk(arena: seq<Entity>, e: nat, w: seq<nat>, visited: set<nat>)
    requires |w| >= 1 && Edge(arena, e, w[0])
    requires BadWalk(arena, w, w[0], visited + {e})
    ensures BadWalk(arena, [e] + w, e, visited)
    ensures PathNodes([e] + w) == {e} + PathNodes(w)
  {
    var w' := [e] + w;
    assert w'[1..] == w;
    assert w'[..|w'| - 1] == [e] + w[..|w| - 1];
    assert IsWalk(arena, w') by {
      forall k | 0 <= k < |w'| - 1
        ensures Edge(arena, w'[k], w'[k + 1])
      {
        if k > 0 {
          assert w'[k] == w[k - 1] && w'[k + 1] == w[k];
        }
      }
    }
    forall x | x in PathNodes(w)
      ensures x in PathNodes(w')
    {
      var k :| 0 <= k < |w| - 1 && w[k] == x;
      assert w'[k + 1] == x;
    }
    forall x | x in PathNodes(w')
      ensures x in {e} + PathNodes(w)
    {
      var k :| 0 <= k < |w'| - 1 && w'[k] == x;
      if k > 0 {
        assert w[k - 1] == x;
      }
    }
    assert w'[0] == e;
  }

  /** A bad walk from an unmarked `e` passes, with `e` marked, through one of its causes. */
  lemma ShortenBadWalk(arena: seq<Entity>, w: seq<nat>, e: nat, visited: set<nat>)
    requires e !in visited && BadWalk(arena, w, e, visited)
    ensures |w| >= 2 && Edge(arena, e, w[1])
    ensures BadWalk(arena, w[1..], w[1], visited + {e})
  {
    var w' := w[1..];
    assert IsWalk(arena, w') by {
      forall k | 0 <= k < |w'| - 1
        ensures Edge(arena, w'[k], w'[k + 1])
      {
        assert Edge(arena, w[k + 1], w[k + 2]);
      }
    }
    var last := w[|w| - 1];
    if last in w[..|w| - 1] && last != e {
      var m :| 0 <= m < |w| - 1 && w[m] == last;
      assert w'[m - 1] == last;
    }
  }

  /**
   * One step of the search: an unmarked `e` leads into a marked node or a
   * repetition exactly when, with `e` marked, one of its causes does.
   */
  lemma CyclicStep(arena: seq<Entity>, e: nat, visited: set<nat>)
    requires e < |arena| && e !in visited
    ensures Cyclic(arena, e, visited) <==>
            exists j :: 0 <= j < |arena[e].causedBy| && Cyclic(arena, arena[e].causedBy[j], visited + {e})
  {
    var causes := arena[e].causedBy;
    if Cyclic(arena, e, visited) {
      var w :| BadWalk(arena, w, e, visited);
      ShortenBadWalk(arena, w, e, visited);
      var j :| 0 <= j < |causes| && causes[j] == w[1];
      assert Cyclic(arena, causes[j], visited + {e});
    }
    if j :| 0 <= j < |causes| && Cyclic(arena, causes[j], visited + {e}) {
      var w :| BadWalk(arena, w, causes[j], visited + {e});
      ExtendBadWalk(arena, e, w, visited);
    }
  }

  /**
   * `hasCycle`: answers whether some walk from `e` runs into a node marked in
   * `visited` or into itself. Returns the shared set as the search leaves
   * it: unchanged after `false`; after `true`, every node of the search path
   * that led to the hit is still marked, since an early `true` skips the
   * removals.
   */
  method HasCycle(arena: seq<Entity>, e: nat, visited: set<nat>) returns (found: bool, after: set<nat>)
    requires Closed(arena) && e < |arena|
    requires forall v :: v in visited ==> v < |arena|
    ensures found <==> Cyclic(arena, e, visited)
    ensures !found ==> after == visited
    ensures found ==> exists w :: BadWalk(arena, w, e, visited) && after == visited + PathNodes(w)
    ensures forall v :: v in after ==> v < |arena|
    decreases Unmarked(arena, visited)
  {
    if e in visited {
      assert BadWalk(arena, [e], e, visited) && PathNodes([e]) == {};
      return true, visited;
    }
    after := visited + {e};
    var causes := arena[e].causedBy;
    var i := 0;
    while i < |causes|
      invariant 0 <= i <= |causes|
      invariant after == visited + {e}
      invariant forall j :: 0 <= j < i ==> !Cyclic(arena, causes[j], visited + {e})
    {
      var parent := causes[i];
      assert e in Unmarked(arena, visited) && e !in Unmarked(arena, after);
      var f;
      f, after := HasCycle(arena, parent, after);
      if f {
        ghost var w :| BadWalk(arena, w, parent, visited + {e}) && after == visited + {e} + PathNodes(w);
        ExtendBadWalk(arena, e, w, visited);
        assert after == visited + PathNodes([e] + w);
        return true, after;
      }
      i := i + 1;
    }
    after := after - {e};
    CyclicStep(arena, e, visited);
    found := false;
  }

  /**
   * On an ordered arena (every cause allocated before its effect) no walk
   * from `e` repeats a node or reaches a node allocated after `e`.
   */
  lemma OrderedNotCyclic(arena: seq<Entity>, e: nat, visited: set<nat>)
    requires Ordered(arena) && e < |arena|
    requires forall v :: v in visited ==> v > e
    ensures !Cyclic(arena, e, visited)
  {
    forall w | IsWalk(arena, w) && w[0] == e
      ensures w[|w| - 1] !in visited && w[|w| - 1] !in w[..|w| - 1]
    {
      var n := |w|;
      forall a | 0 <= a < n - 1
        ensures w[n - 1] < w[a]
      {
        WalkDescends(arena, w, a, n - 1);
      }
      assert n > 1 ==> w[n - 1] < w[0];
    }
  }

  /** Along a walk of an ordered arena the indices strictly decrease. */
  lemma {:induction false} WalkDescends(arena: seq<Entity>, w: seq<nat>, a: nat, c: nat)
    requires Ordered(arena) && IsWalk(arena, w)
    requires a < c < |w|
    ensures w[c] < w[a]
    decreases c - a
  {
    assert Edge(arena, w[a], w[a + 1]);
    var j :| 0 <= j < |arena[w[a]].causedBy| && arena[w[a]].causedBy[j] == w[a + 1];
    if a + 1 < c {
      WalkDescends(arena, w, a + 1, c);
    }
  }

  /** An entity listed among its own causes is reported as a cycle. */
  lemma SelfCauseIsCyclic(arena: seq<Entity>, e: nat, visited: set<nat>)
    requires e < |arena| && e in arena[e].causedBy
    ensures Cyclic(arena, e, visited)
  {
    assert BadWalk(arena, [e, e], e, visited);
  }

  /** An ordered arena is closed: every cause is an entity of the arena. */
  lemma OrderedIsClosed(arena: seq<Entity>)
    requires Ordered(arena)
    ensures Closed(arena)
  {
  }
}
