/**
 * The tree builder of the first-cause argument. Entities live in an arena: a
 * sequence of entity values in allocation order, where a reference to an
 * entity is its index. An entity's `causedBy` list is the parent list that was
 * handed to it; siblings built in one call receive the same list.
 */
module CausalTree {

  /** An entity: the indices of its direct causes. */
  datatype Entity = Entity(causedBy: seq<nat>)

  /** `b` to the power `k`. */
  function Pow(b: int, k: nat): (r: int)
    ensures b >= 0 ==> r >= 0
  {
    if k == 0 then 1 else b * Pow(b, k - 1)
  }

  /** The sum `b^1 + b^2 + ... + b^d`. */
  function GeomSum(b: int, d: nat): (r: int)
    ensures b >= 0 ==> r >= 0
  {
    if d == 0 then 0 else GeomSum(b, d - 1) + Pow(b, d)
  }

  /** How many entities `buildTree(depth, b)` creates: the sum over the levels. */
  function Count(depth: int, b: int): (r: nat)
  {
    if depth <= 0 || b <= 0 then 0 else GeomSum(b, depth)
  }

  /**
   * The entities `buildTree(depth, b, parents)` creates, in the order it
   * creates them, when the first of them is allocated at index `base`.
   */
  function Tree(depth: int, b: int, parents: seq<nat>, base: nat): seq<Entity>
    decreases if depth < 0 then 0 else depth, if b < 0 then 0 else b, 1
  {
    if depth <= 0 || b <= 0 then [] else Siblings(depth, b, b, parents, base)
  }

  /**
   * The entities created by the first `k` rounds of `buildTree`'s loop: per
   * round, a new entity caused by `parents`, then the subtree built below it
   * with the new entity as sole parent.
   */
  function Siblings(depth: nat, b: nat, k: nat, parents: seq<nat>, base: nat): seq<Entity>
    requires depth >= 1
    decreases depth, k, 0
  {
    if k == 0 then []
    else
      var prev := Siblings(depth, b, k - 1, parents, base);
      var me := base + |prev|;
      prev + [Entity(parents)] + Tree(depth - 1, b, [me], me + 1)
  }

  /** Every cause of every entity is an entity allocated strictly earlier. */
  ghost predicate Ordered(arena: seq<Entity>)
  {
    forall i, j :: 0 <= i < |arena| && 0 <= j < |arena[i].causedBy| ==> arena[i].causedBy[j] < i
  }

  /** Entity `i` has exactly one cause, allocated at or after `base` and before `i`. */
  ghost predicate SingleEarlierCause(arena: seq<Entity>, i: nat, base: nat)
    requires i < |arena|
  {
    |arena[i].causedBy| == 1 && base <= arena[i].causedBy[0] < i
  }

  /** The indices `lo, lo+1, ..., hi-1`. */
  function Span(lo: nat, hi: nat): seq<nat>
    requires lo <= hi
  {
    seq(hi - lo, k => lo + k)
  }

  /** `b(1 + b + ... + b^(d-1)) = b + b^2 + ... + b^d`. */
  lemma {:induction false} GeomSumFactor(b: int, d: nat)
    requires d >= 1
    ensures GeomSum(b, d) == b * (1 + GeomSum(b, d - 1))
  {
    if d > 1 {
      GeomSumFactor(b, d - 1);
      calc {
        GeomSum(b, d);
        GeomSum(b, d - 1) + Pow(b, d);
        b * (1 + GeomSum(b, d - 2)) + b * Pow(b, d - 1);
        b * (1 + GeomSum(b, d - 2) + Pow(b, d - 1));
        b * (1 + GeomSum(b, d - 1));
      }
    } else {
      assert Pow(b, 1) == b * Pow(b, 0);
    }
  }

  /** Each round of the loop creates one entity plus a full subtree. */
  lemma {:induction false} SiblingsSize(depth: nat, b: nat, k: nat, parents: seq<nat>, base: nat)
    requires depth >= 1
    ensures |Siblings(depth, b, k, parents, base)| == k * (1 + Count(depth - 1, b))
    decreases depth, k, 0
  {
    if k > 0 {
      var prev := Siblings(depth, b, k - 1, parents, base);
      SiblingsSize(depth, b, k - 1, parents, base);
      TreeSize(depth - 1, b, [base + |prev|], base + |prev| + 1);
      assert |Siblings(depth, b, k, parents, base)| == (k - 1) * (1 + Count(depth - 1, b)) + 1 + Count(depth - 1, b);
    }
  }

  /** `buildTree(depth, b, _)` creates exactly `b + b^2 + ... + b^depth` entities. */
  lemma {:induction false} TreeSize(depth: int, b: int, parents: seq<nat>, base: nat)
    ensures |Tree(depth, b, parents, base)| == Count(depth, b)
    decreases if depth < 0 then 0 else depth, if b < 0 then 0 else b, 1
  {
    if depth > 0 && b > 0 {
      SiblingsSize(depth, b, b, parents, base);
      GeomSumFactor(b, depth);
    }
  }

  /** The tree is non-empty exactly when both the depth and the branch factor are positive. */
  lemma CountPositive(depth: int, b: int)
    ensures Count(depth, b) > 0 <==> depth >= 1 && b >= 1
  {
    if depth >= 1 && b >= 1 {
      GeomSumFactor(b, depth);
      var rest := GeomSum(b, depth - 1);
      assert b * (1 + rest) == b + b * rest;
    }
  }

  /** Depth 2 and branch factor 3 give 3 + 9 = 12 entities, whatever the parents and position. */
  lemma TreeSizeExample(parents: seq<nat>, base: nat)
    ensures |Tree(2, 3, parents, base)| == 12
  {
    TreeSize(2, 3, parents, base);
    assert Pow(3, 1) == 3 && Pow(3, 2) == 9;
    assert Count(2, 3) == GeomSum(3, 2) == 12;
  }

  /**
   * Round `i` of a `buildTree(depth, b, parents)` call, whose first entity is
   * allocated at `base`, occupies the block of `1 + Count(depth - 1, b)`
   * positions starting at `i * (1 + Count(depth - 1, b))` of `t`: first the
   * new entity, caused by `parents`, then immediately its own subtree, built
   * with that entity as sole parent.
   */
  ghost predicate SubtreeAt(t: seq<Entity>, depth: nat, b: nat, parents: seq<nat>, base: nat, i: nat)
    requires depth >= 1
  {
    var size := 1 + Count(depth - 1, b);
    var pos := i * size;
    && pos + size <= |t|
    && t[pos] == Entity(parents)
    && t[pos + 1 .. pos + size] == Tree(depth - 1, b, [base + pos], base + pos + 1)
  }

  /** A block of a list stays in place when the list is extended. */
  lemma SubtreeAtPrefix(prev: seq<Entity>, t: seq<Entity>, depth: nat, b: nat, parents: seq<nat>, base: nat, i: nat)
    requires depth >= 1
    requires SubtreeAt(prev, depth, b, parents, base, i)
    requires |prev| <= |t| && t[..|prev|] == prev
    ensures SubtreeAt(t, depth, b, parents, base, i)
  {
    var size := 1 + Count(depth - 1, b);
    var pos := i * size;
    assert pos + size <= |prev|;
    assert t[pos] == prev[pos];
    var a, c := t[pos + 1 .. pos + size], prev[pos + 1 .. pos + size];
    forall k | 0 <= k < |a|
      ensures a[k] == c[k]
    {
      assert t[..|prev|][pos + 1 + k] == prev[pos + 1 + k];
    }
    assert a == c;
  }

  /** A new entity followed by its subtree, appended after `i` full blocks, is block `i`. */
  lemma AppendBlock(prev: seq<Entity>, depth: nat, b: nat, parents: seq<nat>, base: nat, i: nat)
    requires depth >= 1
    requires |prev| == i * (1 + Count(depth - 1, b))
    ensures SubtreeAt(prev + [Entity(parents)] + Tree(depth - 1, b, [base + |prev|], base + |prev| + 1),
                      depth, b, parents, base, i)
  {
    var me := base + |prev|;
    var sub := Tree(depth - 1, b, [me], me + 1);
    var t := prev + [Entity(parents)] + sub;
    TreeSize(depth - 1, b, [me], me + 1);
    assert t[|prev| + 1 .. |t|] == sub;
  }

  /** The round that follows `k - 1` complete rounds forms block `k - 1`. */
  lemma LastBlock(depth: nat, b: nat, k: nat, parents: seq<nat>, base: nat)
    requires depth >= 1 && k >= 1
    ensures SubtreeAt(Siblings(depth, b, k, parents, base), depth, b, parents, base, k - 1)
  {
    SiblingsSize(depth, b, k - 1, parents, base);
    AppendBlock(Siblings(depth, b, k - 1, parents, base), depth, b, parents, base, k - 1);
  }

  /** The first `k` rounds of the loop are laid out block after block, in pre-order. */
  lemma {:induction false} SiblingsPreorder(depth: nat, b: nat, k: nat, parents: seq<nat>, base: nat)
    requires depth >= 1
    ensures forall i :: 0 <= i < k ==> SubtreeAt(Siblings(depth, b, k, parents, base), depth, b, parents, base, i)
  {
    if k > 0 {
      var prev := Siblings(depth, b, k - 1, parents, base);
      var t := Siblings(depth, b, k, parents, base);
      SiblingsPreorder(depth, b, k - 1, parents, base);
      assert t[..|prev|] == prev;
      forall i | 0 <= i < k - 1
        ensures SubtreeAt(t, depth, b, parents, base, i)
      {
        SubtreeAtPrefix(prev, t, depth, b, parents, base, i);
      }
      LastBlock(depth, b, k, parents, base);
    }
  }

  /**
   * `buildTree` returns its entities in pre-order: the `b` entities of its
   * own level sit at the starts of `b` equal blocks that tile the whole list,
   * each followed immediately by its own subtree.
   */
  lemma TreePreorder(depth: int, b: int, parents: seq<nat>, base: nat)
    requires depth >= 1 && b >= 1
    ensures |Tree(depth, b, parents, base)| == b * (1 + Count(depth - 1, b))
    ensures forall i :: 0 <= i < b ==> SubtreeAt(Tree(depth, b, parents, base), depth, b, parents, base, i)
  {
    SiblingsSize(depth, b, b, parents, base);
    SiblingsPreorder(depth, b, b, parents, base);
  }

  /**
   * The entities from index `lo` on are those of one `buildTree` call made
   * with `parents`: each is caused by `parents` (the call's own level) or has
   * a single cause created earlier in the same call (the deeper levels).
   */
  ghost predicate LevelEdges(arena: seq<Entity>, lo: nat, parents: seq<nat>)
  {
    forall k :: lo <= k < |arena| ==> arena[k].causedBy == parents || SingleEarlierCause(arena, k, lo)
  }

  /** Allocating an entity whose causes already exist keeps the arena ordered. */
  lemma AppendOrdered(arena: seq<Entity>, parents: seq<nat>)
    requires Ordered(arena)
    requires forall p :: p in parents ==> p < |arena|
    ensures Ordered(arena + [Entity(parents)])
  {
    var grown := arena + [Entity(parents)];
    forall i, j | 0 <= i < |grown| && 0 <= j < |grown[i].causedBy|
      ensures grown[i].causedBy[j] < i
    {
      if i == |arena| {
        assert grown[i].causedBy[j] in parents;
      }
    }
  }

  /** A new entity caused by this level's `parents` belongs to this level. */
  lemma AppendLevel(arena: seq<Entity>, lo: nat, parents: seq<nat>)
    requires LevelEdges(arena, lo, parents)
    ensures LevelEdges(arena + [Entity(parents)], lo, parents)
  {
  }

  /**
   * The subtree built below entity `me` (a `buildTree` call from `|arena|`
   * on, with `[me]` as parents) keeps the enclosing call's level structure.
   */
  lemma AppendSubtree(arena: seq<Entity>, grown: seq<Entity>, lo: nat, me: nat, parents: seq<nat>)
    requires LevelEdges(arena, lo, parents)
    requires lo <= me < |arena| <= |grown| && grown[..|arena|] == arena
    requires LevelEdges(grown, |arena|, [me])
    ensures LevelEdges(grown, lo, parents)
  {
    forall k | lo <= k < |grown|
      ensures grown[k].causedBy == parents || SingleEarlierCause(grown, k, lo)
    {
      if k < |arena| {
        assert grown[k] == arena[k];
      }
    }
  }

  /** Adjacent index ranges concatenate. */
  lemma SpanAppend(lo: nat, mid: nat, hi: nat)
    requires lo <= mid <= hi
    ensures Span(lo, mid) + Span(mid, hi) == Span(lo, hi)
  {
    var s := Span(lo, mid) + Span(mid, hi);
    forall k | 0 <= k < hi - lo
      ensures s[k] == lo + k
    {
      if k >= mid - lo {
        assert s[k] == Span(mid, hi)[k - (mid - lo)];
      }
    }
  }

  /** A round of the loop appends a new entity and its subtree to the rounds before it. */
  lemma RoundSiblings(arena: seq<Entity>, depth: nat, b: nat, i: nat, parents: seq<nat>, g0: seq<Entity>, g1: seq<Entity>)
    requires depth >= 1
    requires g0 == arena + Siblings(depth, b, i, parents, |arena|)
    requires g1 == g0 + [Entity(parents)] + Tree(depth - 1, b, [|g0|], |g0| + 1)
    ensures g1 == arena + Siblings(depth, b, i + 1, parents, |arena|)
  {
    var prev := Siblings(depth, b, i, parents, |arena|);
    assert |g0| == |arena| + |prev|;
    assert Siblings(depth, b, i + 1, parents, |arena|)
        == prev + [Entity(parents)] + Tree(depth - 1, b, [|g0|], |g0| + 1);
  }

  /** The indices of a round's new entity and of its subtree extend the list returned so far. */
  lemma RoundSpan(lo: nat, mid: nat, hi: nat, e0: seq<nat>, subtree: seq<nat>)
    requires lo <= mid < hi
    requires e0 == Span(lo, mid) && subtree == Span(mid + 1, hi)
    ensures e0 + [mid] + subtree == Span(lo, hi)
  {
    SpanAppend(lo, mid, mid + 1);
    SpanAppend(lo, mid + 1, hi);
  }

  /**
   * The recursive builder. Allocates into `arena` and returns the grown arena
   * together with the list `buildTree` returns, as indices: every entity it
   * created, in creation order. Entities at this level are caused by
   * `parents`; every deeper entity has one cause, created earlier in the
   * same call, so no entity of the arena points forward.
   */
  method BuildTree(arena: seq<Entity>, depth: int, b: int, parents: seq<nat>)
      returns (grown: seq<Entity>, entities: seq<nat>)
    requires Ordered(arena)
    requires forall p :: p in parents ==> p < |arena|
    ensures grown == arena + Tree(depth, b, parents, |arena|)
    ensures |grown| == |arena| + Count(depth, b)
    ensures entities == Span(|arena|, |grown|)
    ensures Ordered(grown)
    ensures LevelEdges(grown, |arena|, parents)
    decreases if depth < 0 then 0 else depth
  {
    TreeSize(depth, b, parents, |arena|);
    grown, entities := arena, [];
    // A non-positive `b` runs the loop below zero times: nothing is created.
    if depth <= 0 || b <= 0 {
      return;
    }
    var i := 0;
    while i < b
      invariant 0 <= i <= b
      invariant grown == arena + Siblings(depth, b, i, parents, |arena|)
      invariant entities == Span(|arena|, |grown|)
      invariant Ordered(grown)
      invariant LevelEdges(grown, |arena|, parents)
    {
      var newEntity := |grown|;
      ghost var g0, e0 := grown, entities;
      AppendOrdered(grown, parents);
      AppendLevel(grown, |arena|, parents);
      grown := grown + [Entity(parents)];
      entities := entities + [newEntity];
      ghost var before := grown;
      var subtree;
      grown, subtree := BuildTree(grown, depth - 1, b, [newEntity]);
      AppendSubtree(before, grown, |arena|, newEntity, parents);
      entities := entities + subtree;
      RoundSiblings(arena, depth, b, i, parents, g0, grown);
      RoundSpan(|arena|, newEntity, |grown|, e0, subtree);
      i := i + 1;
    }
  }
}
