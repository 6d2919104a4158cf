/**
 * The entry point (TreeSelector.select): the parsed selector is walked by a
 * fresh anchored listener; any exception, from parsing or from the walk,
 * turns into an empty list.  Lexing and parsing are not modelled: the
 * parser's outcome is an input, None when it threw.
 */
module Facade {
  import opened Wrappers
  import opened TreeNodes
  import opened ParseTree
  import opened Traversal
  import opened AttributeMatching
  import opened SelectorListener
  import opened ListenerProperties

  /** What select returns for a parse outcome. */
  function SelectSpec(g: seq<Node>, root: nat, parsed: Option<Selector>): (r: seq<nat>)
    requires WellFormed(g) && root < |g|
    ensures InArena(g, r)
    ensures parsed.None? ==> r == []
  {
    match parsed
    case None => []
    case Some(ctx) =>
      match Evaluate(g, root, ctx)
      case Ok(nodes) => nodes
      case Thrown(_) => []
  }

  class TreeSelector {
    const tree: seq<Node>
    const rootNode: nat

    constructor (tree: seq<Node>, rootNode: nat)
      ensures this.tree == tree && this.rootNode == rootNode
    {
      this.tree := tree;
      this.rootNode := rootNode;
    }

    /**
     * select: enterSelector, then enterNodeSelector for each later segment
     * in order, then the listener's result; an exception yields `[]`.
     */
    method Select(parsed: Option<Selector>) returns (nodes: seq<nat>)
      requires WellFormed(tree) && rootNode < |tree|
      ensures nodes == SelectSpec(tree, rootNode, parsed)
    {
      if parsed.None? {
        return [];
      }
      var ctx := parsed.value;
      var listener := new TreeSelectorListener(tree, rootNode);
      var outcome := listener.EnterSelector(ctx);
      if outcome.Fail? {
        return [];
      }
      ghost var goal := Walk(tree, rootNode, ctx);
      var i := 0;
      while i < |ctx.nodeSelectors|
        invariant 0 <= i <= |ctx.nodeSelectors|
        invariant listener.Valid() && listener.tree == tree && listener.rootNode == rootNode
        invariant goal == WalkSegments(tree, ctx, i, listener.State())
      {
        outcome := listener.EnterNodeSelector(ctx, i);
        if outcome.Fail? {
          return [];
        }
        i := i + 1;
      }
      return listener.resultNodes;
    }
  }

  /**
   * select never lets an exception out: a parse failure gives the empty
   * list, so does every exception of the walk (which only a lone `'` in
   * some attribute block can raise), and otherwise the walk's result list
   * is returned.
   */
  lemma SelectSwallowsExceptions(g: seq<Node>, root: nat, ctx: Selector)
    requires WellFormed(g) && root < |g|
    ensures SelectSpec(g, root, None) == []
    ensures Evaluate(g, root, ctx).Thrown? ==> SelectSpec(g, root, Some(ctx)) == [] && SelectorHasLoneQuote(ctx)
    ensures Evaluate(g, root, ctx).Ok? ==> SelectSpec(g, root, Some(ctx)) == Evaluate(g, root, ctx).value
  {
    EvaluateThrowsOnlyOnLoneQuote(g, root, ctx);
  }

  /**
   * A root wildcard whose attribute block starts with a lone `'` key makes
   * the filter throw, so select returns the empty list.
   */
  lemma LoneQuoteKeyMakesSelectEmpty(g: seq<Node>, root: nat, ctx: Selector)
    requires WellFormed(g) && root < |g|
    requires ctx.root.body.Wildcard? && ctx.root.attributeSelector.Some?
    requires var exprs := ctx.root.attributeSelector.value; |exprs| > 0 && exprs[0].attributeName == "'"
    ensures SelectSpec(g, root, None) == []
    ensures Evaluate(g, root, ctx).Thrown? && SelectSpec(g, root, Some(ctx)) == []
  {
    var exprs := ctx.root.attributeSelector.value;
    assert ExprMatches(g[root], exprs[0]).Thrown?;
    assert MatchesAll(g[root], exprs).Thrown?;
    assert KeepMatching(g, [root], exprs).Thrown?;
  }

  /** Without an exception, select returns the list of the last segment. */
  lemma SelectReturnsLastList(g: seq<Node>, root: nat, ctx: Selector)
    requires WellFormed(g) && root < |g|
    ensures var w := Walk(g, root, ctx);
      w.Ok? ==> SelectSpec(g, root, Some(ctx)) == w.value.current
  {
    ResultIsLastList(g, root, ctx);
  }
}
