/**
 * The order in which the collectors list a tree.  When the arena reachable
 * from the start node is a tree (no cycle, and no node shared by two
 * parents or listed twice by one), the processed set never causes a skip,
 * and a collection is the plain pre-order walk: a node, then the pre-order
 * of each of its children in turn.
 */
module TreeOrder {
  import opened TreeNodes
  import opened Sequences
  import opened Traversal

  /**
   * The arena is a forest: `rank` strictly decreases along every child
   * link (so there is no cycle), and every child slot of the arena holds a
   * different node (so no node has two parents or appears twice in one
   * child list).
   */
  ghost predicate TreeShaped(g: seq<Node>, rank: seq<nat>) {
    && WellFormed(g)
    && |rank| == |g|
    && (forall i, j :: 0 <= i < |g| && 0 <= j < |g[i].children| ==> rank[g[i].children[j]] < rank[i])
    && (forall i, a, j, b ::
          && 0 <= i < |g| && 0 <= a < |g[i].children| && 0 <= j < |g| && 0 <= b < |g[j].children|
          && g[i].children[a] == g[j].children[b]
          ==> i == j && a == b)
  }

  /** Every node of `cs` ranks below `bound`. */
  ghost predicate RankedBelow(rank: seq<nat>, cs: seq<nat>, bound: nat) {
    forall k :: 0 <= k < |cs| ==> cs[k] < |rank| && rank[cs[k]] < bound
  }

  /** The pre-order walk from `n`: `n`, then the walk of each child in turn. */
  ghost function PreOrder(g: seq<Node>, rank: seq<nat>, n: nat): (r: seq<nat>)
    requires TreeShaped(g, rank) && n < |g|
    ensures InArena(g, r)
    decreases rank[n], 1, 0
  {
    ChildrenInArena(g, n);
    [n] + PreOrderAll(g, rank, g[n].children, rank[n])
  }

  /** The pre-order walks of the nodes of `cs`, one after the other. */
  ghost function PreOrderAll(g: seq<Node>, rank: seq<nat>, cs: seq<nat>, bound: nat): (r: seq<nat>)
    requires TreeShaped(g, rank) && InArena(g, cs) && RankedBelow(rank, cs, bound)
    ensures InArena(g, r)
    decreases bound, 0, |cs|
  {
    if cs == [] then []
    else PreOrder(g, rank, cs[0]) + PreOrderAll(g, rank, cs[1..], bound)
  }

  /** A node is in the walks of `cs` exactly when it is in the walk of one of them. */
  lemma {:induction false} PreOrderAllMembers(g: seq<Node>, rank: seq<nat>, cs: seq<nat>, bound: nat)
    requires TreeShaped(g, rank) && InArena(g, cs) && RankedBelow(rank, cs, bound)
    ensures forall x :: x in PreOrderAll(g, rank, cs, bound) <==> exists k :: 0 <= k < |cs| && x in PreOrder(g, rank, cs[k])
  {
    if cs != [] {
      PreOrderAllMembers(g, rank, cs[1..], bound);
      forall x | x in PreOrderAll(g, rank, cs[1..], bound)
        ensures exists k :: 0 <= k < |cs| && x in PreOrder(g, rank, cs[k])
      {
        var k :| 0 <= k < |cs[1..]| && x in PreOrder(g, rank, cs[1..][k]);
        assert cs[1..][k] == cs[k + 1];
      }
      forall x, k | 0 <= k < |cs| && x in PreOrder(g, rank, cs[k])
        ensures x in PreOrderAll(g, rank, cs, bound)
      {
        if k > 0 {
          assert cs[1..][k - 1] == cs[k];
        }
      }
    }
  }

  /** The walk from `n` holds only nodes of the arena ranked no higher than `n`. */
  lemma {:induction false} PreOrderRanks(g: seq<Node>, rank: seq<nat>, n: nat)
    requires TreeShaped(g, rank) && n < |g|
    ensures forall x :: x in PreOrder(g, rank, n) ==> x < |g| && rank[x] <= rank[n]
    decreases rank[n]
  {
    var cs := g[n].children;
    ChildrenInArena(g, n);
    PreOrderAllMembers(g, rank, cs, rank[n]);
    forall k | 0 <= k < |cs|
      ensures forall x :: x in PreOrder(g, rank, cs[k]) ==> x < |g| && rank[x] <= rank[n]
    {
      PreOrderRanks(g, rank, cs[k]);
    }
  }

  /** If `z` lies in the walk from `y` below `y`, so does the parent `a` of `z`. */
  lemma {:induction false} ParentInPreOrder(g: seq<Node>, rank: seq<nat>, y: nat, z: nat, a: nat, ia: nat)
    requires TreeShaped(g, rank) && y < |g| && a < |g| && ia < |g[a].children| && g[a].children[ia] == z
    requires z in PreOrder(g, rank, y) && z != y
    ensures a in PreOrder(g, rank, y)
    decreases rank[y]
  {
    var cs := g[y].children;
    ChildrenInArena(g, y);
    PreOrderAllMembers(g, rank, cs, rank[y]);
    var k :| 0 <= k < |cs| && z in PreOrder(g, rank, cs[k]);
    if z != cs[k] {
      ParentInPreOrder(g, rank, cs[k], z, a, ia);
    }
  }

  /** Two walks that share a node are nested: one starts inside the other. */
  lemma {:induction false} SharedNodeNests(g: seq<Node>, rank: seq<nat>, a: nat, b: nat, x: nat)
    requires TreeShaped(g, rank) && a < |g| && b < |g|
    requires x in PreOrder(g, rank, a) && x in PreOrder(g, rank, b)
    ensures a in PreOrder(g, rank, b) || b in PreOrder(g, rank, a)
    decreases rank[a] + rank[b]
  {
    if x != a && x != b {
      ChildrenInArena(g, a);
      ChildrenInArena(g, b);
      PreOrderAllMembers(g, rank, g[a].children, rank[a]);
      PreOrderAllMembers(g, rank, g[b].children, rank[b]);
      var ka :| 0 <= ka < |g[a].children| && x in PreOrder(g, rank, g[a].children[ka]);
      var kb :| 0 <= kb < |g[b].children| && x in PreOrder(g, rank, g[b].children[kb]);
      var ca, cb := g[a].children[ka], g[b].children[kb];
      SharedNodeNests(g, rank, ca, cb, x);
      if ca == cb {
        assert a == b;
      } else if ca in PreOrder(g, rank, cb) {
        ParentInPreOrder(g, rank, cb, ca, a, ka);
      } else {
        ParentInPreOrder(g, rank, ca, cb, b, kb);
      }
    }
  }

  /** The walks from two different children of one node share no node. */
  lemma SiblingWalksDisjoint(g: seq<Node>, rank: seq<nat>, n: nat, k: nat, l: nat, x: nat)
    requires TreeShaped(g, rank) && n < |g| && k < |g[n].children| && l < |g[n].children| && k != l
    requires x in PreOrder(g, rank, g[n].children[k])
    ensures x !in PreOrder(g, rank, g[n].children[l])
  {
    var ck, cl := g[n].children[k], g[n].children[l];
    if x in PreOrder(g, rank, cl) {
      SharedNodeNests(g, rank, ck, cl, x);
      if ck in PreOrder(g, rank, cl) {
        ParentInPreOrder(g, rank, cl, ck, n, k);
        PreOrderRanks(g, rank, cl);
      } else {
        ParentInPreOrder(g, rank, ck, cl, n, l);
        PreOrderRanks(g, rank, ck);
      }
    }
  }

  /** Walks without repeats that pairwise share no node concatenate to a list without repeats. */
  lemma {:induction false} PreOrderAllDistinct(g: seq<Node>, rank: seq<nat>, cs: seq<nat>, bound: nat)
    requires TreeShaped(g, rank) && InArena(g, cs) && RankedBelow(rank, cs, bound)
    requires forall k :: 0 <= k < |cs| ==> Distinct(PreOrder(g, rank, cs[k]))
    requires forall k, l, x ::
      0 <= k < |cs| && 0 <= l < |cs| && k != l && x in PreOrder(g, rank, cs[k]) ==> x !in PreOrder(g, rank, cs[l])
    ensures Distinct(PreOrderAll(g, rank, cs, bound))
  {
    if cs != [] {
      var rest := cs[1..];
      assert forall k :: 0 <= k < |rest| ==> rest[k] == cs[k + 1];
      PreOrderAllDistinct(g, rank, rest, bound);
      PreOrderAllMembers(g, rank, rest, bound);
      DistinctConcat(PreOrder(g, rank, cs[0]), PreOrderAll(g, rank, rest, bound));
    }
  }

  /** On a tree, the walk from any node lists no node twice. */
  lemma {:induction false} PreOrderDistinct(g: seq<Node>, rank: seq<nat>, n: nat)
    requires TreeShaped(g, rank) && n < |g|
    ensures Distinct(PreOrder(g, rank, n))
    decreases rank[n]
  {
    var cs := g[n].children;
    ChildrenInArena(g, n);
    forall k | 0 <= k < |cs| ensures Distinct(PreOrder(g, rank, cs[k])) {
      PreOrderDistinct(g, rank, cs[k]);
    }
    forall k, l, x | 0 <= k < |cs| && 0 <= l < |cs| && k != l && x in PreOrder(g, rank, cs[k])
      ensures x !in PreOrder(g, rank, cs[l])
    {
      SiblingWalksDisjoint(g, rank, n, k, l, x);
    }
    PreOrderAllDistinct(g, rank, cs, rank[n]);
    PreOrderAllMembers(g, rank, cs, rank[n]);
    forall k | 0 <= k < |cs| ensures n !in PreOrder(g, rank, cs[k]) {
      PreOrderRanks(g, rank, cs[k]);
    }
    DistinctConcat([n], PreOrderAll(g, rank, cs, rank[n]));
  }

  /**
   * A collection over `cs` whose walks list no node twice and meet no
   * processed node skips nothing: it returns those walks.
   */
  lemma {:induction false} ExpandFollowsPreOrder(g: seq<Node>, rank: seq<nat>, cs: seq<nat>, bound: nat, p: set<nat>)
    requires TreeShaped(g, rank) && InArena(g, cs) && RankedBelow(rank, cs, bound)
    requires Distinct(PreOrderAll(g, rank, cs, bound))
    requires forall x :: x in PreOrderAll(g, rank, cs, bound) ==> x !in p
    ensures Expand(g, cs, p).0 == PreOrderAll(g, rank, cs, bound)
    decreases bound, |cs|
  {
    if cs != [] {
      var c := cs[0];
      ChildrenInArena(g, c);
      var walk := PreOrderAll(g, rank, g[c].children, rank[c]);
      var rest := PreOrderAll(g, rank, cs[1..], bound);
      assert PreOrderAll(g, rank, cs, bound) == [c] + walk + rest;
      assert c !in p;
      DistinctSplit([c] + walk, rest);
      DistinctSplit([c], walk);
      ExpandFollowsPreOrder(g, rank, g[c].children, rank[c], p + {c});
      var inner := Expand(g, g[c].children, p + {c});
      ExpandEmitsFreshNodes(g, g[c].children, p + {c});
      assert RankedBelow(rank, cs[1..], bound) by {
        assert forall k :: 0 <= k < |cs[1..]| ==> cs[1..][k] == cs[k + 1];
      }
      ExpandFollowsPreOrder(g, rank, cs[1..], bound, inner.1);
    }
  }

  /**
   * On a tree, `collectNodesRecursively(root)` from an empty processed set
   * returns the pre-order walk from the root.
   */
  lemma CollectAllIsPreOrder(g: seq<Node>, rank: seq<nat>, root: nat)
    requires TreeShaped(g, rank) && root < |g|
    ensures Expand(g, [root], {}).0 == PreOrder(g, rank, root)
  {
    PreOrderDistinct(g, rank, root);
    assert PreOrderAll(g, rank, [root], rank[root] + 1) == PreOrder(g, rank, root) + [] by {
      assert [root][1..] == [];
    }
    assert PreOrder(g, rank, root) + [] == PreOrder(g, rank, root);
    ExpandFollowsPreOrder(g, rank, [root], rank[root] + 1, {});
  }

  /**
   * On a tree, `collectDescendantsRecursively(n)` from an empty processed
   * set returns the walks of the children of `n`, in child order.
   */
  lemma CollectDescendantsIsPreOrder(g: seq<Node>, rank: seq<nat>, n: nat)
    requires TreeShaped(g, rank) && n < |g|
    ensures Expand(g, g[n].children, {}).0 == PreOrder(g, rank, n)[1..]
  {
    ChildrenInArena(g, n);
    PreOrderDistinct(g, rank, n);
    var walk := PreOrderAll(g, rank, g[n].children, rank[n]);
    assert PreOrder(g, rank, n) == [n] + walk;
    DistinctSplit([n], walk);
    ExpandFollowsPreOrder(g, rank, g[n].children, rank[n], {});
  }
}
