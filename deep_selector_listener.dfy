/**
 * The deep evaluator (DeepTreeSelectorListenerImpl) for selectors starting
 * with `**`: every node below the root in pre-order, filtered by the first
 * segment's name and attribute block, then one child step per further
 * segment.  A further segment is never a descendant step: anything but a
 * name or `*` is compared with the empty name.
 */
module DeepSelectorListener {
  import opened Wrappers
  import opened TreeNodes
  import opened ParseTree
  import opened Sequences
  import opened Traversal
  import opened AttributeMatching
  import opened SelectorListener
  import opened TreeOrder

  /** One further segment: the matching children of the current nodes, then the attribute block. */
  function DeepStep(g: seq<Node>, cur: seq<nat>, seg: Segment): (r: Result<seq<nat>>)
    requires WellFormed(g) && InArena(g, cur)
    ensures r.Ok? ==> InArena(g, r.value)
  {
    ApplyAttributeSelector(g, MatchingChildren(g, cur, seg.body.Wildcard?, NodeName(seg.body)), seg.attributeSelector)
  }

  /** The further segments in order; the list after the last one. */
  function DeepSteps(g: seq<Node>, cur: seq<nat>, segs: seq<Segment>): (r: Result<seq<nat>>)
    requires WellFormed(g) && InArena(g, cur)
    ensures r.Ok? ==> InArena(g, r.value)
    ensures r.Thrown? ==> exists j :: 0 <= j < |segs| && HasLoneQuote(segs[j].attributeSelector)
    decreases |segs|
  {
    if segs == [] then Ok(cur)
    else
      var next :- DeepStep(g, cur, segs[0]);
      DeepSteps(g, next, segs[1..])
  }

  /** The further segments from segment `i`: one step, then the segments after it. */
  lemma DeepStepsFrom(g: seq<Node>, cur: seq<nat>, segs: seq<Segment>, i: nat)
    requires WellFormed(g) && InArena(g, cur) && i < |segs|
    ensures var r := DeepStep(g, cur, segs[i]);
      && (r.Thrown? ==> DeepSteps(g, cur, segs[i..]) == Thrown(r.exception))
      && (r.Ok? ==> DeepSteps(g, cur, segs[i..]) == DeepSteps(g, r.value, segs[i + 1..]))
      && (r.Ok? && i + 1 == |segs| ==> DeepSteps(g, r.value, segs[i + 1..]) == Ok(r.value))
  {
    assert segs[i..][0] == segs[i] && segs[i..][1..] == segs[i + 1..];
  }

  /** The nodes the first segment keeps, before the further segments. */
  function DeepFirst(g: seq<Node>, root: nat, first: Segment): (r: Result<seq<nat>>)
    requires WellFormed(g) && root < |g|
    ensures r.Ok? ==> InArena(g, r.value)
  {
    var all := Expand(g, [root], {}).0;
    ApplyAttributeSelector(g, NameFilter(g, all, first.body.Wildcard?, NodeName(first.body)), first.attributeSelector)
  }

  /** `getResultNodes()` after enterDeepSelector, or the exception it threw. */
  function DeepEvaluate(g: seq<Node>, root: nat, ctx: DeepSelector): (r: Result<seq<nat>>)
    requires WellFormed(g) && root < |g|
    ensures r.Ok? ==> InArena(g, r.value)
    ensures r.Thrown? ==>
      HasLoneQuote(ctx.first.attributeSelector) ||
      exists j :: 0 <= j < |ctx.nodeSelectors| && HasLoneQuote(ctx.nodeSelectors[j].attributeSelector)
  {
    var start :- DeepFirst(g, root, ctx.first);
    DeepSteps(g, start, ctx.nodeSelectors)
  }

  class DeepTreeSelectorListener {
    const tree: seq<Node>
    const rootNode: nat
    var resultNodes: seq<nat>
    var processedNodes: set<nat>

    constructor (tree: seq<Node>, rootNode: nat)
      ensures this.tree == tree && this.rootNode == rootNode
      ensures resultNodes == [] && processedNodes == {}
    {
      this.tree := tree;
      this.rootNode := rootNode;
      resultNodes := [];
      processedNodes := {};
    }

    /** enterDeepSelector; `Fail` when an attribute block threw. */
    method EnterDeepSelector(ctx: DeepSelector) returns (outcome: Outcome)
      requires WellFormed(tree) && rootNode < |tree|
      modifies this
      ensures processedNodes == Expand(tree, [rootNode], {}).1
      ensures var r := DeepEvaluate(tree, rootNode, ctx);
        (outcome.Pass? <==> r.Ok?) && (r.Ok? ==> resultNodes == r.value)
    {
      resultNodes := [];
      processedNodes := {};
      var allNodes := CollectNodesRecursively(rootNode, []);
      assert allNodes == Expand(tree, [rootNode], {}).0;
      var matchingNodes := KeepNamed(allNodes, ctx.first.body.Wildcard?, NodeName(ctx.first.body));
      var filtered := ApplyBlock(matchingNodes, ctx.first.attributeSelector);
      assert DeepFirst(tree, rootNode, ctx.first) == filtered;
      if filtered.Thrown? {
        return Fail(filtered.exception);
      }
      matchingNodes := filtered.value;
      if |ctx.nodeSelectors| == 0 {
        resultNodes := resultNodes + matchingNodes;
        return Pass;
      }
      outcome := FollowSegments(matchingNodes, ctx.nodeSelectors);
    }

    /**
     * The loop of enterDeepSelector over the further segments: each
     * replaces the current list by a child step; the last list is appended
     * to the result.
     */
    method FollowSegments(start: seq<nat>, segs: seq<Segment>) returns (outcome: Outcome)
      requires WellFormed(tree) && rootNode < |tree| && InArena(tree, start) && segs != []
      modifies this`resultNodes
      ensures var r := DeepSteps(tree, start, segs);
        (outcome.Pass? <==> r.Ok?) && (r.Ok? ==> resultNodes == old(resultNodes) + r.value)
    {
      var currentNodes := start;
      var i := 0;
      assert segs[0..] == segs;
      while i < |segs|
        invariant 0 <= i <= |segs| && InArena(tree, currentNodes)
        invariant DeepSteps(tree, start, segs) == DeepSteps(tree, currentNodes, segs[i..])
        invariant resultNodes == old(resultNodes) + (if i == |segs| then currentNodes else [])
      {
        var nsCtx := segs[i];
        var nextNodes := NextNodes(currentNodes, nsCtx.body.Wildcard?, NodeName(nsCtx.body));
        var next := ApplyBlock(nextNodes, nsCtx.attributeSelector);
        DeepStepsFrom(tree, currentNodes, segs, i);
        if next.Thrown? {
          return Fail(next.exception);
        }
        currentNodes := next.value;
        if i == |segs| - 1 {
          resultNodes := resultNodes + currentNodes;
        }
        i := i + 1;
      }
      return Pass;
    }

    /** The name test of enterDeepSelector's loops: the nodes, in order, that are `*`-matched or carry the name. */
    method KeepNamed(nodes: seq<nat>, isWildcard: bool, nodeName: string) returns (matchingNodes: seq<nat>)
      requires InArena(tree, nodes)
      ensures matchingNodes == NameFilter(tree, nodes, isWildcard, nodeName)
    {
      matchingNodes := [];
      var k := 0;
      while k < |nodes|
        invariant 0 <= k <= |nodes|
        invariant matchingNodes == NameFilter(tree, nodes[..k], isWildcard, nodeName)
      {
        assert nodes[..k + 1] == nodes[..k] + [nodes[k]];
        NameFilterSnoc(tree, nodes[..k], nodes[k], isWildcard, nodeName);
        if isWildcard || tree[nodes[k]].name == nodeName {
          matchingNodes := matchingNodes + [nodes[k]];
        }
        k := k + 1;
      }
      assert nodes[..k] == nodes;
    }

    /**
     * An attribute block, when present, delegated to the filter of a fresh
     * anchored listener over the same root.
     */
    method ApplyBlock(nodes: seq<nat>, block: Option<seq<AttributeExpr>>) returns (r: Result<seq<nat>>)
      requires WellFormed(tree) && rootNode < |tree| && InArena(tree, nodes)
      ensures r == ApplyAttributeSelector(tree, nodes, block)
    {
      if block.None? {
        return Ok(nodes);
      }
      var helper := new TreeSelectorListener(tree, rootNode);
      r := helper.FilterNodesByAttributes(nodes, block.value);
    }

    /** The two nested loops of a further segment: the selected children of every current node, in order. */
    method NextNodes(currentNodes: seq<nat>, nsIsWildcard: bool, nsNodeName: string) returns (nextNodes: seq<nat>)
      requires WellFormed(tree) && InArena(tree, currentNodes)
      ensures nextNodes == MatchingChildren(tree, currentNodes, nsIsWildcard, nsNodeName)
    {
      nextNodes := [];
      var k := 0;
      while k < |currentNodes|
        invariant 0 <= k <= |currentNodes|
        invariant nextNodes == MatchingChildren(tree, currentNodes[..k], nsIsWildcard, nsNodeName)
      {
        MatchingChildrenSnoc(tree, currentNodes, k, nsIsWildcard, nsNodeName);
        var here := KeepNamed(tree[currentNodes[k]].children, nsIsWildcard, nsNodeName);
        nextNodes := nextNodes + here;
        k := k + 1;
      }
      assert currentNodes[..k] == currentNodes;
    }

    /** collectNodesRecursively of the deep listener: appends `node` and everything below it not yet processed. */
    method CollectNodesRecursively(node: nat, allNodes: seq<nat>) returns (collected: seq<nat>)
      requires WellFormed(tree) && node < |tree|
      modifies this`processedNodes
      ensures var r := Expand(tree, [node], old(processedNodes));
        collected == allNodes + r.0 && processedNodes == r.1
      decreases Unvisited(tree, processedNodes), 1
    {
      assert [node][1..] == [];
      if node in processedNodes {
        return allNodes;
      }
      ghost var entry := processedNodes;
      processedNodes := processedNodes + {node};
      collected := allNodes + [node];
      var children := tree[node].children;
      ghost var full := Expand(tree, children, entry + {node});
      assert children[0..] == children;
      var i := 0;
      while i < |children|
        invariant 0 <= i <= |children|
        invariant entry + {node} <= processedNodes
        invariant var rest := Expand(tree, children[i..], processedNodes);
          allNodes + [node] + full.0 == collected + rest.0 && full.1 == rest.1
      {
        var child := children[i];
        assert children[i..][1..] == children[i + 1..] && [child][1..] == [];
        assert node in Unvisited(tree, entry) && node !in Unvisited(tree, processedNodes);
        assert Unvisited(tree, processedNodes) <= Unvisited(tree, entry);
        collected := CollectNodesRecursively(child, collected);
        i := i + 1;
      }
      assert children[|children|..] == [];
      assert Expand(tree, children[i..], processedNodes).0 == [];
      assert collected == allNodes + [node] + full.0;
      assert collected == allNodes + ([node] + full.0 + []);
    }
  }

  /** `**` followed by `*` lists every node reachable from the root, the root first, each once. */
  lemma DeepWildcardListsEveryNodeOnce(g: seq<Node>, root: nat)
    requires WellFormed(g) && root < |g|
    ensures var r := DeepEvaluate(g, root, DeepSelector(Segment(Wildcard, None), []));
      && r.Ok? && |r.value| > 0 && r.value[0] == root
      && Distinct(r.value)
      && forall x :: x in r.value <==> Reachable(g, root, x)
  {
    var all := Expand(g, [root], {}).0;
    CollectAllListsReachableNodesOnce(g, root);
    NameFilterWildcardKeepsAll(g, all, "");
  }

  /** On a tree, `**` followed by `*` lists the pre-order walk from the root. */
  lemma DeepWildcardListsPreOrder(g: seq<Node>, rank: seq<nat>, root: nat)
    requires TreeShaped(g, rank) && root < |g|
    ensures DeepEvaluate(g, root, DeepSelector(Segment(Wildcard, None), [])) == Ok(PreOrder(g, rank, root))
  {
    CollectAllIsPreOrder(g, rank, root);
    NameFilterWildcardKeepsAll(g, PreOrder(g, rank, root), "");
  }

  /** On a tree, `**` followed by a name lists the nodes so named in the order of the pre-order walk. */
  lemma DeepNameListsPreOrder(g: seq<Node>, rank: seq<nat>, root: nat, n: string)
    requires TreeShaped(g, rank) && root < |g|
    ensures DeepEvaluate(g, root, DeepSelector(Segment(Named(n), None), []))
      == Ok(NameFilter(g, PreOrder(g, rank, root), false, n))
  {
    CollectAllIsPreOrder(g, rank, root);
  }

  /**
   * The first segment keeps, in pre-order and each once, exactly the
   * reachable nodes with its name (all of them for `*`) that pass its
   * attribute block; so `**` followed by a name finds every node so named.
   */
  lemma DeepFirstSegmentSelects(g: seq<Node>, root: nat, first: Segment)
    requires WellFormed(g) && root < |g|
    ensures var r := DeepFirst(g, root, first);
      r.Ok? ==>
        && IsSubsequence(r.value, Expand(g, [root], {}).0)
        && Distinct(r.value)
        && forall x :: x in r.value <==>
             && Reachable(g, root, x)
             && NameMatches(g, x, first.body.Wildcard?, NodeName(first.body))
             && (first.attributeSelector.None? || first.attributeSelector.value == [] || Accepts(g, x, first.attributeSelector.value))
    ensures first.attributeSelector.None? ==> DeepFirst(g, root, first).Ok?
  {
    var all := Expand(g, [root], {}).0;
    var named := NameFilter(g, all, first.body.Wildcard?, NodeName(first.body));
    CollectAllListsReachableNodesOnce(g, root);
    NameFilterIsSubsequence(g, all, first.body.Wildcard?, NodeName(first.body));
    NameFilterKeepsSelected(g, all, first.body.Wildcard?, NodeName(first.body));
    DistinctSubsequence(named, all);
    var r := DeepFirst(g, root, first);
    if first.attributeSelector.Some? {
      FilterByAttributesSelects(g, named, first.attributeSelector.value);
      if r.Ok? {
        SubsequenceTrans(r.value, named, all);
        DistinctSubsequence(r.value, named);
      }
    }
  }

  /**
   * A further segment keeps, in order, the children of the current nodes
   * with its name (all for `*`, the empty name for anything else) that pass
   * its attribute block: every output node is a child of a node of the
   * previous list.
   */
  lemma DeepStepSelectsChildren(g: seq<Node>, cur: seq<nat>, seg: Segment)
    requires WellFormed(g) && InArena(g, cur)
    ensures var r := DeepStep(g, cur, seg);
      r.Ok? ==>
        && IsSubsequence(r.value, MatchingChildren(g, cur, seg.body.Wildcard?, NodeName(seg.body)))
        && (forall x :: multiset(r.value)[x] ==
             if seg.attributeSelector.None? || seg.attributeSelector.value == [] || Accepts(g, x, seg.attributeSelector.value)
             then multiset(MatchingChildren(g, cur, seg.body.Wildcard?, NodeName(seg.body)))[x] else 0)
        && forall x :: x in r.value <==>
             && ChildOfSome(g, cur, x)
             && NameMatches(g, x, seg.body.Wildcard?, NodeName(seg.body))
             && (seg.attributeSelector.None? || seg.attributeSelector.value == [] || Accepts(g, x, seg.attributeSelector.value))
  {
    var children := MatchingChildren(g, cur, seg.body.Wildcard?, NodeName(seg.body));
    MatchingChildrenAreSelectedChildren(g, cur, seg.body.Wildcard?, NodeName(seg.body));
    if seg.attributeSelector.Some? {
      FilterByAttributesSelects(g, children, seg.attributeSelector.value);
    } else {
      SubsequenceOfItself(children);
    }
  }

  /** A further `~~`, `.` or `..` behaves as a segment naming the empty name. */
  lemma DeepOtherSegmentsMatchEmptyName(g: seq<Node>, cur: seq<nat>, seg: Segment)
    requires WellFormed(g) && InArena(g, cur)
    requires seg.body.Placeholder? || seg.body.Current? || seg.body.Parent?
    ensures DeepStep(g, cur, seg) == DeepStep(g, cur, Segment(Named(""), seg.attributeSelector))
  {
  }
}
