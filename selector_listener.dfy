/**
 * The anchored-path evaluator (TreeSelectorListenerImpl): a root segment
 * seeds a working list, each later segment replaces it by matching children
 * or descendants, and every segment's attribute block filters the list.
 * The functions below give the listener's state after each callback; the
 * class performs the same updates on its fields.
 */
module SelectorListener {
  import opened Wrappers
  import opened TreeNodes
  import opened ParseTree
  import opened Sequences
  import opened Traversal
  import opened AttributeMatching

  /** The listener's fields `currentNodes`, `resultNodes` and `processedNodes`. */
  datatype ListenerState = ListenerState(current: seq<nat>, result: seq<nat>, processed: set<nat>)

  /** The name a segment compares child names with (only used when it is neither `*` nor `~~`). */
  function NodeName(body: SegmentBody): string {
    if body.Named? then body.text else ""
  }

  /**
   * The seed list and processed set a root segment produces, or None when
   * the root segment is neither a name, `*` nor `~~` (the early return).
   */
  function SeedRoot(g: seq<Node>, root: nat, body: SegmentBody): (r: Option<(seq<nat>, set<nat>)>)
    requires WellFormed(g) && root < |g|
    ensures r.None? <==> !(body.Named? || body.Wildcard? || body.Placeholder?)
    ensures r.Some? ==> InArena(g, r.value.0)
    ensures r.Some? && !body.Placeholder? ==> r.value.1 == {} && forall x :: x in r.value.0 ==> x == root
  {
    match body
    case Named(n) => Some((if g[root].name == n then [root] else [], {}))
    case Wildcard => Some(([root], {}))
    case Placeholder => Some(Expand(g, [root], {}))
    case _ => None
  }

  /** enterSelector: clears the three fields, seeds, filters; the seed is the result when no segment follows. */
  function EnterSelectorSpec(g: seq<Node>, root: nat, ctx: Selector): (r: Result<ListenerState>)
    requires WellFormed(g) && root < |g|
    ensures r.Ok? ==> InArena(g, r.value.current) && InArena(g, r.value.result)
    ensures r.Ok? && ctx.nodeSelectors != [] ==> r.value.result == []
    ensures r.Ok? && ctx.nodeSelectors == [] ==> r.value.result == r.value.current
    ensures r.Thrown? ==> HasLoneQuote(ctx.root.attributeSelector)
  {
    match SeedRoot(g, root, ctx.root.body)
    case None => Ok(ListenerState([], [], {}))
    case Some(seed) =>
      var current :- ApplyAttributeSelector(g, seed.0, ctx.root.attributeSelector);
      Ok(ListenerState(current, if ctx.nodeSelectors == [] then current else [], seed.1))
  }

  /**
   * The placeholder loop of enterNodeSelector: the descendants of each
   * current node in turn, all sharing one processed set.
   */
  function DescendantsOfAll(g: seq<Node>, cur: seq<nat>, p: set<nat>): (res: (seq<nat>, set<nat>))
    requires WellFormed(g) && InArena(g, cur)
    ensures p <= res.1 && InArena(g, res.0)
  {
    if cur == [] then ([], p)
    else
      var d := Expand(g, g[cur[0]].children, p);
      var rest := DescendantsOfAll(g, cur[1..], d.1);
      (d.0 + rest.0, rest.1)
  }

  /** The list a later segment produces before its attribute block, and the new processed set. */
  function SegmentStep(g: seq<Node>, body: SegmentBody, cur: seq<nat>, p: set<nat>): (res: (seq<nat>, set<nat>))
    requires WellFormed(g) && InArena(g, cur)
    ensures InArena(g, res.0) && p <= res.1
    ensures !body.Placeholder? ==> res.1 == p
  {
    if body.Placeholder? then DescendantsOfAll(g, cur, p)
    else (MatchingChildren(g, cur, body.Wildcard?, NodeName(body)), p)
  }

  /** enterNodeSelector for segment `i` of `ctx`; the last segment's list is appended to the result. */
  function EnterNodeSelectorSpec(g: seq<Node>, ctx: Selector, i: nat, s: ListenerState): (r: Result<ListenerState>)
    requires WellFormed(g) && i < |ctx.nodeSelectors| && InArena(g, s.current)
    ensures r.Ok? ==> InArena(g, r.value.current) && s.processed <= r.value.processed
    ensures r.Ok? && InArena(g, s.result) ==> InArena(g, r.value.result)
    ensures r.Ok? && i + 1 < |ctx.nodeSelectors| ==> r.value.result == s.result
    ensures r.Ok? && i + 1 == |ctx.nodeSelectors| ==> r.value.result == s.result + r.value.current
    ensures r.Thrown? ==> HasLoneQuote(ctx.nodeSelectors[i].attributeSelector)
  {
    var seg := ctx.nodeSelectors[i];
    var step := SegmentStep(g, seg.body, s.current, s.processed);
    var matching :- ApplyAttributeSelector(g, step.0, seg.attributeSelector);
    assert InArena(g, s.result) ==> InArena(g, s.result + matching) by {
      if InArena(g, s.result) { InArenaConcat(g, s.result, matching); }
    }
    Ok(ListenerState(matching, if i == |ctx.nodeSelectors| - 1 then s.result + matching else s.result, step.1))
  }

  /** The walker's callbacks for segments `i..` in order, stopping at the first exception. */
  function WalkSegments(g: seq<Node>, ctx: Selector, i: nat, s: ListenerState): (r: Result<ListenerState>)
    requires WellFormed(g) && i <= |ctx.nodeSelectors| && InArena(g, s.current)
    ensures r.Ok? ==> InArena(g, r.value.current) && s.processed <= r.value.processed
    ensures r.Ok? && InArena(g, s.result) ==> InArena(g, r.value.result)
    ensures r.Thrown? ==> exists j :: i <= j < |ctx.nodeSelectors| && HasLoneQuote(ctx.nodeSelectors[j].attributeSelector)
    decreases |ctx.nodeSelectors| - i
  {
    if i == |ctx.nodeSelectors| then Ok(s)
    else
      var next :- EnterNodeSelectorSpec(g, ctx, i, s);
      WalkSegments(g, ctx, i + 1, next)
  }

  /** The listener's state after the whole parse tree of `ctx` has been walked. */
  function Walk(g: seq<Node>, root: nat, ctx: Selector): (r: Result<ListenerState>)
    requires WellFormed(g) && root < |g|
    ensures r.Ok? ==> InArena(g, r.value.current) && InArena(g, r.value.result)
  {
    var s :- EnterSelectorSpec(g, root, ctx);
    WalkSegments(g, ctx, 0, s)
  }

  /** `getResultNodes()` after the walk, or the exception that ended it. */
  function Evaluate(g: seq<Node>, root: nat, ctx: Selector): (r: Result<seq<nat>>)
    requires WellFormed(g) && root < |g|
    ensures r.Ok? ==> InArena(g, r.value)
  {
    var s :- Walk(g, root, ctx);
    Ok(s.result)
  }

  /** `xs` in front of a successful list; an exception stays an exception. */
  ghost function Prepend(xs: seq<nat>, r: Result<seq<nat>>): Result<seq<nat>> {
    match r
    case Ok(v) => Ok(xs + v)
    case Thrown(e) => Thrown(e)
  }

  /**
   * The filter from position `k` on: the node at `k` is tested first and,
   * when it passes, put in front of the filter of the nodes after it.
   */
  lemma KeepMatchingFrom(g: seq<Node>, nodes: seq<nat>, k: nat, exprs: seq<AttributeExpr>)
    requires InArena(g, nodes) && k < |nodes|
    ensures InArena(g, nodes[k..]) && InArena(g, nodes[k + 1..])
    ensures var m := MatchesAll(g[nodes[k]], exprs);
      && (m.Thrown? ==> KeepMatching(g, nodes[k..], exprs).Thrown?)
      && (m.Ok? ==> KeepMatching(g, nodes[k..], exprs)
                      == Prepend(if m.value then [nodes[k]] else [], KeepMatching(g, nodes[k + 1..], exprs)))
  {
    assert nodes[k..][0] == nodes[k] && nodes[k..][1..] == nodes[k + 1..];
  }

  /** Putting two lists in front, one after the other, puts their concatenation in front. */
  lemma PrependTwice(xs: seq<nat>, ys: seq<nat>, r: Result<seq<nat>>)
    ensures Prepend(xs, Prepend(ys, r)) == Prepend(xs + ys, r)
  {
    if r.Ok? {
      assert xs + (ys + r.value) == (xs + ys) + r.value;
    }
  }

  class TreeSelectorListener {
    const tree: seq<Node>
    const rootNode: nat
    var currentNodes: seq<nat>
    var resultNodes: seq<nat>
    var processedNodes: set<nat>

    ghost predicate Valid()
      reads this
    {
      WellFormed(tree) && rootNode < |tree| && InArena(tree, currentNodes)
    }

    ghost function State(): ListenerState
      reads this
    {
      ListenerState(currentNodes, resultNodes, processedNodes)
    }

    constructor (tree: seq<Node>, rootNode: nat)
      requires WellFormed(tree) && rootNode < |tree|
      ensures Valid() && this.tree == tree && this.rootNode == rootNode
      ensures State() == ListenerState([], [], {})
    {
      this.tree := tree;
      this.rootNode := rootNode;
      currentNodes := [];
      resultNodes := [];
      processedNodes := {};
    }

    /** enterSelector; `Fail` when filtering the seed threw. */
    method EnterSelector(ctx: Selector) returns (outcome: Outcome)
      requires Valid()
      modifies this
      ensures Valid()
      ensures var r := EnterSelectorSpec(tree, rootNode, ctx);
        (outcome.Pass? <==> r.Ok?) && (r.Ok? ==> State() == r.value)
    {
      currentNodes := [];
      resultNodes := [];
      processedNodes := {};
      var body := ctx.root.body;
      if !body.Named? && !body.Wildcard? && !body.Placeholder? {
        return Pass;
      }
      if body.Wildcard? {
        currentNodes := currentNodes + [rootNode];
        assert currentNodes == [rootNode];
      } else if body.Placeholder? {
        var allNodes := CollectNodesRecursively(rootNode, []);
        currentNodes := currentNodes + allNodes;
        assert currentNodes == allNodes == Expand(tree, [rootNode], {}).0;
      } else if tree[rootNode].name == body.text {
        currentNodes := currentNodes + [rootNode];
        assert currentNodes == [rootNode];
      }
      assert SeedRoot(tree, rootNode, body) == Some((currentNodes, processedNodes));
      if ctx.root.attributeSelector.Some? {
        var filtered := FilterNodesByAttributes(currentNodes, ctx.root.attributeSelector.value);
        if filtered.Thrown? {
          return Fail(filtered.exception);
        }
        currentNodes := filtered.value;
      }
      if |ctx.nodeSelectors| == 0 {
        resultNodes := resultNodes + currentNodes;
      }
      return Pass;
    }

    /**
     * enterNodeSelector for segment `i` of its parent selector `parent`;
     * `Fail` when the attribute block threw.
     */
    method EnterNodeSelector(parent: Selector, i: nat) returns (outcome: Outcome)
      requires Valid() && i < |parent.nodeSelectors|
      modifies this
      ensures Valid()
      ensures var r := EnterNodeSelectorSpec(tree, parent, i, old(State()));
        (outcome.Pass? <==> r.Ok?) && (r.Ok? ==> State() == r.value)
    {
      var ctx := parent.nodeSelectors[i];
      var matchingNodes: seq<nat>;
      var isWildcard := ctx.body.Wildcard?;
      var isPlaceholder := ctx.body.Placeholder?;
      var nodeName := NodeName(ctx.body);
      if isPlaceholder {
        matchingNodes := DescendantsOfCurrent();
      } else {
        matchingNodes := ChildrenOfCurrent(isWildcard, nodeName);
      }
      assert SegmentStep(tree, ctx.body, old(currentNodes), old(processedNodes)) == (matchingNodes, processedNodes);
      if ctx.attributeSelector.Some? {
        var filtered := FilterNodesByAttributes(matchingNodes, ctx.attributeSelector.value);
        if filtered.Thrown? {
          return Fail(filtered.exception);
        }
        matchingNodes := filtered.value;
      }
      currentNodes := matchingNodes;
      if i == |parent.nodeSelectors| - 1 {
        resultNodes := resultNodes + matchingNodes;
      }
      return Pass;
    }

    /** The placeholder branch of enterNodeSelector: the descendants of every current node, one shared processed set. */
    method DescendantsOfCurrent() returns (matchingNodes: seq<nat>)
      requires Valid()
      modifies this`processedNodes
      ensures (matchingNodes, processedNodes) == DescendantsOfAll(tree, currentNodes, old(processedNodes))
    {
      var nodes := currentNodes;
      matchingNodes := [];
      var k := 0;
      assert nodes[0..] == nodes;
      assert matchingNodes + DescendantsOfAll(tree, nodes, processedNodes).0 == DescendantsOfAll(tree, nodes, processedNodes).0;
      while k < |nodes|
        invariant 0 <= k <= |nodes|
        invariant var rest := DescendantsOfAll(tree, nodes[k..], processedNodes);
          DescendantsOfAll(tree, nodes, old(processedNodes)) == (matchingNodes + rest.0, rest.1)
      {
        assert nodes[k..][1..] == nodes[k + 1..];
        ghost var d := Expand(tree, tree[nodes[k]].children, processedNodes);
        ghost var rest := DescendantsOfAll(tree, nodes[k + 1..], d.1);
        assert DescendantsOfAll(tree, nodes[k..], processedNodes) == (d.0 + rest.0, rest.1);
        var descendants := CollectDescendantsRecursively(nodes[k], []);
        assert descendants == d.0;
        assert matchingNodes + (d.0 + rest.0) == (matchingNodes + descendants) + rest.0;
        matchingNodes := matchingNodes + descendants;
        k := k + 1;
      }
      assert nodes[k..] == [];
      assert DescendantsOfAll(tree, nodes[k..], processedNodes).0 == [];
      assert matchingNodes + [] == matchingNodes;
    }

    /** The other branch of enterNodeSelector: all children (wildcard) or the children named `nodeName`. */
    method ChildrenOfCurrent(isWildcard: bool, nodeName: string) returns (matchingNodes: seq<nat>)
      requires Valid()
      ensures matchingNodes == MatchingChildren(tree, currentNodes, isWildcard, nodeName)
    {
      var nodes := currentNodes;
      matchingNodes := [];
      var k := 0;
      while k < |nodes|
        invariant 0 <= k <= |nodes|
        invariant matchingNodes == MatchingChildren(tree, nodes[..k], isWildcard, nodeName)
      {
        var children := tree[nodes[k]].children;
        var matchingHere: seq<nat> := [];
        if isWildcard {
          NameFilterWildcardKeepsAll(tree, children, nodeName);
          matchingHere := children;
        } else {
          var j := 0;
          while j < |children|
            invariant 0 <= j <= |children|
            invariant matchingHere == NameFilter(tree, children[..j], false, nodeName)
          {
            assert children[..j + 1] == children[..j] + [children[j]];
            NameFilterSnoc(tree, children[..j], children[j], false, nodeName);
            if tree[children[j]].name == nodeName {
              matchingHere := matchingHere + [children[j]];
            }
            j := j + 1;
          }
          assert children[..j] == children;
        }
        MatchingChildrenSnoc(tree, nodes, k, isWildcard, nodeName);
        matchingNodes := matchingNodes + matchingHere;
        k := k + 1;
      }
      assert nodes[..k] == nodes;
    }

    /** collectNodesRecursively: appends `node` and everything below it not yet processed. */
    method CollectNodesRecursively(node: nat, allNodes: seq<nat>) returns (collected: seq<nat>)
      requires WellFormed(tree) && node < |tree|
      modifies this`processedNodes
      ensures var r := Expand(tree, [node], old(processedNodes));
        collected == allNodes + r.0 && processedNodes == r.1
      decreases Unvisited(tree, processedNodes), 1
    {
      assert [node][1..] == [];
      if node in processedNodes {
        return allNodes;
      }
      ghost var entry := processedNodes;
      processedNodes := processedNodes + {node};
      collected := allNodes + [node];
      var children := tree[node].children;
      ghost var full := Expand(tree, children, entry + {node});
      assert children[0..] == children;
      var i := 0;
      while i < |children|
        invariant 0 <= i <= |children|
        invariant entry + {node} <= processedNodes
        invariant var rest := Expand(tree, children[i..], processedNodes);
          allNodes + [node] + full.0 == collected + rest.0 && full.1 == rest.1
      {
        var child := children[i];
        assert children[i..][1..] == children[i + 1..] && [child][1..] == [];
        assert node in Unvisited(tree, entry) && node !in Unvisited(tree, processedNodes);
        assert Unvisited(tree, processedNodes) <= Unvisited(tree, entry);
        collected := CollectNodesRecursively(child, collected);
        i := i + 1;
      }
      assert children[|children|..] == [];
      assert Expand(tree, children[i..], processedNodes).0 == [];
      assert collected == allNodes + [node] + full.0;
      assert collected == allNodes + ([node] + full.0 + []);
    }

    /** collectDescendantsRecursively: appends everything below `node` not yet processed. */
    method CollectDescendantsRecursively(node: nat, descendants: seq<nat>) returns (collected: seq<nat>)
      requires WellFormed(tree) && node < |tree|
      modifies this`processedNodes
      ensures var r := Expand(tree, tree[node].children, old(processedNodes));
        collected == descendants + r.0 && processedNodes == r.1
      decreases Unvisited(tree, processedNodes)
    {
      ghost var entry := processedNodes;
      collected := descendants;
      var children := tree[node].children;
      ghost var full := Expand(tree, children, entry);
      assert children[0..] == children;
      var i := 0;
      while i < |children|
        invariant 0 <= i <= |children|
        invariant entry <= processedNodes
        invariant var rest := Expand(tree, children[i..], processedNodes);
          descendants + full.0 == collected + rest.0 && full.1 == rest.1
      {
        var child := children[i];
        assert children[i..][1..] == children[i + 1..];
        if child !in processedNodes {
          processedNodes := processedNodes + {child};
          collected := collected + [child];
          assert child in Unvisited(tree, entry) && child !in Unvisited(tree, processedNodes);
          assert Unvisited(tree, processedNodes) <= Unvisited(tree, entry);
          collected := CollectDescendantsRecursively(child, collected);
        }
        i := i + 1;
      }
      assert children[|children|..] == [];
      assert Expand(tree, children[i..], processedNodes).0 == [];
      assert collected == descendants + full.0;
    }

    /**
     * filterNodesByAttributes: for each node, the expressions are checked
     * in order until one fails (`break`); a node is kept when none failed.
     * With no expressions the input list itself is returned.
     */
    method FilterNodesByAttributes(nodes: seq<nat>, attributeExprs: seq<AttributeExpr>) returns (r: Result<seq<nat>>)
      requires InArena(tree, nodes)
      ensures r == FilterByAttributes(tree, nodes, attributeExprs)
    {
      if |attributeExprs| == 0 {
        return Ok(nodes);
      }
      var filteredNodes: seq<nat> := [];
      var k := 0;
      assert nodes[0..] == nodes;
      ghost var all := KeepMatching(tree, nodes, attributeExprs);
      if all.Ok? {
        assert filteredNodes + all.value == all.value;
      }
      while k < |nodes|
        invariant 0 <= k <= |nodes|
        invariant KeepMatching(tree, nodes, attributeExprs) == Prepend(filteredNodes, KeepMatching(tree, nodes[k..], attributeExprs))
      {
        KeepMatchingFrom(tree, nodes, k, attributeExprs);
        var node := tree[nodes[k]];
        var matches := MatchesAllAttributes(node, attributeExprs);
        if matches.Thrown? {
          return Thrown(matches.exception);
        }
        var matchesAllAttributes := matches.value;
        ghost var kept: seq<nat> := if matchesAllAttributes then [nodes[k]] else [];
        PrependTwice(filteredNodes, kept, KeepMatching(tree, nodes[k + 1..], attributeExprs));
        ghost var before := filteredNodes;
        if matchesAllAttributes {
          filteredNodes := filteredNodes + [nodes[k]];
        }
        assert filteredNodes == before + kept;
        k := k + 1;
      }
      assert nodes[k..] == [] && filteredNodes + [] == filteredNodes;
      return Ok(filteredNodes);
    }

    /**
     * The inner loop of filterNodesByAttributes for one node: each
     * expression is cleaned (key, then value) and tested in order, a `*`
     * value skips to the next one, and the first failing test ends the loop.
     */
    method MatchesAllAttributes(node: Node, attributeExprs: seq<AttributeExpr>) returns (r: Result<bool>)
      ensures r == MatchesAll(node, attributeExprs)
    {
      var matchesAllAttributes := true;
      var j := 0;
      assert attributeExprs[0..] == attributeExprs;
      while j < |attributeExprs|
        invariant 0 <= j <= |attributeExprs|
        invariant MatchesAll(node, attributeExprs) == MatchesAll(node, attributeExprs[j..])
      {
        assert attributeExprs[j..][1..] == attributeExprs[j + 1..];
        var attrName := CleanAttributeValue(attributeExprs[j].attributeName);
        if attrName.Thrown? {
          return Thrown(attrName.exception);
        }
        var attrValue := CleanAttributeValue(attributeExprs[j].attributeValue);
        if attrValue.Thrown? {
          return Thrown(attrValue.exception);
        }
        if attrValue.value == "*" {
          j := j + 1;
          continue;
        }
        var matchesThisAttribute := false;
        if attrName.value == "type" && node.nodeType == Some(attrValue.value) {
          matchesThisAttribute := true;
        } else if attrName.value == "variant" && node.variant == Some(attrValue.value) {
          matchesThisAttribute := true;
        } else if attrName.value == "version" && CompareVersions(attrValue.value, node.version) {
          matchesThisAttribute := true;
        } else if attrName.value in node.attributes && node.attributes[attrName.value] == attrValue.value {
          matchesThisAttribute := true;
        }
        if !matchesThisAttribute {
          matchesAllAttributes := false;
          break;
        }
        j := j + 1;
      }
      assert matchesAllAttributes ==> attributeExprs[j..] == [];
      return Ok(matchesAllAttributes);
    }
  }
}
