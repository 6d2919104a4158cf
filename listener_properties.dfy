/**
 * What the anchored-path evaluator computes: how the root segment seeds
 * the list, what a child step and a `~~` step return, that the processed
 * set only grows, and that the result is the list of the last segment.
 */
module ListenerProperties {
  import opened Wrappers
  import opened TreeNodes
  import opened ParseTree
  import opened Sequences
  import opened Traversal
  import opened AttributeMatching
  import opened SelectorListener
  import opened TreeOrder

  /** `x` lies below some node of `cur`. */
  ghost predicate DescendantOfSome(g: seq<Node>, cur: seq<nat>, x: nat) {
    exists k :: 0 <= k < |cur| && Descendant(g, cur[k], x)
  }

  /** A root segment naming the root selects it, any other name selects nothing. */
  lemma RootNameSelectsRoot(g: seq<Node>, root: nat, n: string)
    requires WellFormed(g) && root < |g|
    ensures Evaluate(g, root, Selector(Segment(Named(n), None), []))
      == Ok(if g[root].name == n then [root] else [])
  {
  }

  /** A root wildcard segment selects the root alone. */
  lemma RootWildcardSelectsRoot(g: seq<Node>, root: nat)
    requires WellFormed(g) && root < |g|
    ensures Evaluate(g, root, Selector(Segment(Wildcard, None), [])) == Ok([root])
  {
  }

  /** `/~~` selects every node reachable from the root, the root first, each once. */
  lemma RootPlaceholderListsEveryNodeOnce(g: seq<Node>, root: nat)
    requires WellFormed(g) && root < |g|
    ensures var r := Evaluate(g, root, Selector(Segment(Placeholder, None), []));
      && r.Ok? && |r.value| > 0 && r.value[0] == root
      && Distinct(r.value)
      && forall x :: x in r.value <==> Reachable(g, root, x)
  {
    CollectAllListsReachableNodesOnce(g, root);
  }

  /** On a tree, `/~~` selects the pre-order walk from the root. */
  lemma RootPlaceholderListsPreOrder(g: seq<Node>, rank: seq<nat>, root: nat)
    requires TreeShaped(g, rank) && root < |g|
    ensures Evaluate(g, root, Selector(Segment(Placeholder, None), [])) == Ok(PreOrder(g, rank, root))
  {
    CollectAllIsPreOrder(g, rank, root);
  }

  /** On a tree, `/Root/~~` with the root's own name selects the pre-order walk below the root. */
  lemma RootThenPlaceholderListsPreOrder(g: seq<Node>, rank: seq<nat>, root: nat)
    requires TreeShaped(g, rank) && root < |g|
    ensures Evaluate(g, root, Selector(Segment(Named(g[root].name), None), [Segment(Placeholder, None)]))
      == Ok(PreOrder(g, rank, root)[1..])
  {
    var ctx := Selector(Segment(Named(g[root].name), None), [Segment(Placeholder, None)]);
    var s0 := ListenerState([root], [], {});
    assert EnterSelectorSpec(g, root, ctx) == Ok(s0);
    ChildrenInArena(g, root);
    var d := Expand(g, g[root].children, {});
    assert [root][0] == root && [root][1..] == [];
    var res := DescendantsOfAll(g, [root], {});
    assert DescendantsOfAll(g, [root][1..], d.1) == ([], d.1);
    assert res.0 == d.0 + [];
    var s1 := ListenerState(res.0, [] + res.0, res.1);
    assert EnterNodeSelectorSpec(g, ctx, 0, s0) == Ok(s1);
    assert WalkSegments(g, ctx, 1, s1) == Ok(s1);
    assert [] + res.0 == res.0 && d.0 + [] == d.0;
    CollectDescendantsIsPreOrder(g, rank, root);
  }

  /** A walk over segments starting from an empty list keeps it empty and adds nothing to the result. */
  lemma {:induction false} EmptyListStaysEmpty(g: seq<Node>, ctx: Selector, i: nat, s: ListenerState)
    requires WellFormed(g) && i <= |ctx.nodeSelectors| && s.current == []
    ensures var t := WalkSegments(g, ctx, i, s);
      t.Ok? && t.value.current == [] && t.value.result == s.result
    decreases |ctx.nodeSelectors| - i
  {
    if i < |ctx.nodeSelectors| {
      var seg := ctx.nodeSelectors[i];
      if seg.attributeSelector.Some? {
        FilterThrowsOnlyOnLoneQuote(g, [], seg.attributeSelector.value);
      }
      var next := EnterNodeSelectorSpec(g, ctx, i, s);
      assert next.Ok? && next.value.current == [] && next.value.result == s.result;
      EmptyListStaysEmpty(g, ctx, i + 1, next.value);
    }
  }

  /**
   * A root segment `.` or `..` returns early from enterSelector; the later
   * segments then work on an empty list, so the result is empty.
   */
  lemma UnsupportedRootSelectsNothing(g: seq<Node>, root: nat, ctx: Selector)
    requires WellFormed(g) && root < |g|
    requires ctx.root.body.Current? || ctx.root.body.Parent?
    ensures Evaluate(g, root, ctx) == Ok([])
  {
    EmptyListStaysEmpty(g, ctx, 0, ListenerState([], [], {}));
  }

  /** From segment `i` on, the result grows by exactly the list the last segment produces. */
  lemma {:induction false} WalkAppendsLastList(g: seq<Node>, ctx: Selector, i: nat, s: ListenerState)
    requires WellFormed(g) && i < |ctx.nodeSelectors| && InArena(g, s.current)
    ensures var t := WalkSegments(g, ctx, i, s);
      t.Ok? ==> t.value.result == s.result + t.value.current
    decreases |ctx.nodeSelectors| - i
  {
    var next := EnterNodeSelectorSpec(g, ctx, i, s);
    if next.Ok? && i + 1 < |ctx.nodeSelectors| {
      WalkAppendsLastList(g, ctx, i + 1, next.value);
    }
  }

  /**
   * The result is cleared on entry and, after the walk, is the list of the
   * last segment; with no segment after the root it is the filtered seed.
   */
  lemma ResultIsLastList(g: seq<Node>, root: nat, ctx: Selector)
    requires WellFormed(g) && root < |g|
    ensures var w := Walk(g, root, ctx);
      && (w.Ok? ==> Evaluate(g, root, ctx) == Ok(w.value.current))
      && (w.Thrown? ==> Evaluate(g, root, ctx).Thrown?)
    ensures var seed := SeedRoot(g, root, ctx.root.body);
      ctx.nodeSelectors == [] && seed.Some? ==>
        Evaluate(g, root, ctx) == ApplyAttributeSelector(g, seed.value.0, ctx.root.attributeSelector)
  {
    var s := EnterSelectorSpec(g, root, ctx);
    if s.Ok? && ctx.nodeSelectors != [] {
      WalkAppendsLastList(g, ctx, 0, s.value);
      assert s.value.result == [];
      var w := WalkSegments(g, ctx, 0, s.value);
      if w.Ok? {
        assert [] + w.value.current == w.value.current;
      }
    }
  }

  /**
   * A named, `*`, `.` or `..` segment keeps, in order and with duplicates,
   * the children of the current nodes whose name equals the segment text
   * (all of them for `*`, the empty name for `.` and `..`) and that pass
   * the attribute block; the processed set is untouched.
   */
  lemma ChildStepSelectsChildren(g: seq<Node>, ctx: Selector, i: nat, s: ListenerState)
    requires WellFormed(g) && i < |ctx.nodeSelectors| && InArena(g, s.current)
    requires !ctx.nodeSelectors[i].body.Placeholder?
    ensures var seg := ctx.nodeSelectors[i];
      var r := EnterNodeSelectorSpec(g, ctx, i, s);
      r.Ok? ==>
        && r.value.processed == s.processed
        && IsSubsequence(r.value.current, MatchingChildren(g, s.current, seg.body.Wildcard?, NodeName(seg.body)))
        && (forall x :: multiset(r.value.current)[x] ==
             if seg.attributeSelector.None? || seg.attributeSelector.value == [] || Accepts(g, x, seg.attributeSelector.value)
             then multiset(MatchingChildren(g, s.current, seg.body.Wildcard?, NodeName(seg.body)))[x] else 0)
        && forall x :: x in r.value.current <==>
             && ChildOfSome(g, s.current, x)
             && NameMatches(g, x, seg.body.Wildcard?, NodeName(seg.body))
             && (seg.attributeSelector.None? || seg.attributeSelector.value == [] || Accepts(g, x, seg.attributeSelector.value))
  {
    var seg := ctx.nodeSelectors[i];
    var children := MatchingChildren(g, s.current, seg.body.Wildcard?, NodeName(seg.body));
    MatchingChildrenAreSelectedChildren(g, s.current, seg.body.Wildcard?, NodeName(seg.body));
    if seg.attributeSelector.Some? {
      FilterByAttributesSelects(g, children, seg.attributeSelector.value);
    } else {
      SubsequenceOfItself(children);
    }
  }

  /** Children of two lists stay in the larger of their two sets. */
  lemma ChildrenInConcat(g: seq<Node>, a: seq<nat>, b: seq<nat>, s: set<nat>, t: set<nat>)
    requires ChildrenIn(g, a, s) && ChildrenIn(g, b, t) && s <= t
    ensures ChildrenIn(g, a + b, t)
  {
    forall i, j | 0 <= i < |a + b| && (a + b)[i] < |g| && 0 <= j < |g[(a + b)[i]].children|
      ensures g[(a + b)[i]].children[j] in t
    {
      if i < |a| {
        assert (a + b)[i] == a[i];
      } else {
        assert (a + b)[i] == b[i - |a|];
      }
    }
  }

  /**
   * A `~~` step emits each node at most once and only nodes not processed
   * before; the processed set grows by exactly the emitted nodes and holds
   * every child of an emitted node.
   */
  lemma {:induction false} PlaceholderStepEmitsFreshNodes(g: seq<Node>, cur: seq<nat>, p: set<nat>)
    requires WellFormed(g) && InArena(g, cur)
    ensures var res := DescendantsOfAll(g, cur, p);
      && Distinct(res.0)
      && (forall x :: x in res.0 ==> x !in p)
      && (forall x :: x in res.1 <==> x in p || x in res.0)
      && ChildrenIn(g, res.0, res.1)
  {
    if cur != [] {
      ChildrenInArena(g, cur[0]);
      var d := Expand(g, g[cur[0]].children, p);
      var rest := DescendantsOfAll(g, cur[1..], d.1);
      ExpandEmitsFreshNodes(g, g[cur[0]].children, p);
      ExpandClosesOverChildren(g, g[cur[0]].children, p);
      PlaceholderStepEmitsFreshNodes(g, cur[1..], d.1);
      DistinctConcat(d.0, rest.0);
      ChildrenInConcat(g, d.0, rest.0, d.1, rest.1);
    }
  }

  /** A `~~` step emits only proper descendants of the current nodes. */
  lemma {:induction false} PlaceholderStepEmitsDescendants(g: seq<Node>, cur: seq<nat>, p: set<nat>)
    requires WellFormed(g) && InArena(g, cur)
    ensures forall x :: x in DescendantsOfAll(g, cur, p).0 ==> DescendantOfSome(g, cur, x)
  {
    if cur != [] {
      var c := cur[0];
      ChildrenInArena(g, c);
      var d := Expand(g, g[c].children, p);
      var below := set x | 0 <= x < |g| && Descendant(g, c, x);
      DescendantSetIsClosed(g, c);
      forall y | y in g[c].children
        ensures y in below
      {
        assert IsPath(g, [c, y]);
      }
      ExpandStaysWithin(g, g[c].children, p, below);
      PlaceholderStepEmitsDescendants(g, cur[1..], d.1);
      forall x | x in DescendantsOfAll(g, cur, p).0
        ensures DescendantOfSome(g, cur, x)
      {
        if x in d.0 {
          assert Descendant(g, cur[0], x);
        } else {
          var k :| 0 <= k < |cur[1..]| && Descendant(g, cur[1..][k], x);
          assert Descendant(g, cur[k + 1], x);
        }
      }
    }
  }

  /** After a `~~` step every child of every current node is processed. */
  lemma {:induction false} PlaceholderStepProcessesChildren(g: seq<Node>, cur: seq<nat>, p: set<nat>)
    requires WellFormed(g) && InArena(g, cur)
    ensures ChildrenIn(g, cur, DescendantsOfAll(g, cur, p).1)
  {
    if cur != [] {
      ChildrenInArena(g, cur[0]);
      var d := Expand(g, g[cur[0]].children, p);
      var res := DescendantsOfAll(g, cur, p);
      ExpandClosesOverChildren(g, g[cur[0]].children, p);
      PlaceholderStepProcessesChildren(g, cur[1..], d.1);
      forall i, j | 0 <= i < |cur| && cur[i] < |g| && 0 <= j < |g[cur[i]].children|
        ensures g[cur[i]].children[j] in res.1
      {
        if i == 0 {
          assert g[cur[0]].children[j] in g[cur[0]].children;
        } else {
          assert cur[1..][i - 1] == cur[i];
        }
      }
    }
  }

  /** A closed set grown by nodes whose children it holds stays closed. */
  lemma ClosedGrowth(g: seq<Node>, p: set<nat>, out: seq<nat>, q: set<nat>)
    requires Closed(g, p) && ChildrenIn(g, out, q)
    requires forall x :: x in q <==> x in p || x in out
    ensures Closed(g, q)
  {
    forall x, c | x in q && x < |g| && c in g[x].children
      ensures c in q
    {
      if x !in p {
        var i :| 0 <= i < |out| && out[i] == x;
        var j :| 0 <= j < |g[x].children| && g[x].children[j] == c;
      }
    }
  }

  /**
   * From a processed set that no child link leaves, a `~~` step emits
   * exactly the nodes below some current node that were not processed
   * yet, and the new processed set is again closed.
   */
  lemma PlaceholderStepSelectsUnprocessedDescendants(g: seq<Node>, cur: seq<nat>, p: set<nat>)
    requires WellFormed(g) && InArena(g, cur) && Closed(g, p)
    ensures var res := DescendantsOfAll(g, cur, p);
      && Closed(g, res.1)
      && forall x :: x in res.0 <==> DescendantOfSome(g, cur, x) && x !in p
  {
    var res := DescendantsOfAll(g, cur, p);
    PlaceholderStepEmitsFreshNodes(g, cur, p);
    PlaceholderStepEmitsDescendants(g, cur, p);
    PlaceholderStepProcessesChildren(g, cur, p);
    ClosedGrowth(g, p, res.0, res.1);
    forall x | DescendantOfSome(g, cur, x) && x !in p
      ensures x in res.0
    {
      var k :| 0 <= k < |cur| && Descendant(g, cur[k], x);
      var path :| IsPath(g, path) && |path| >= 2 && path[0] == cur[k] && path[|path| - 1] == x;
      PathTail(g, path);
      var j :| 0 <= j < |g[cur[k]].children| && g[cur[k]].children[j] == path[1];
      PathStaysInClosedSet(g, path[1..], res.1);
    }
  }

  /** enterSelector leaves a processed set that no child link leaves. */
  lemma EnterSelectorClosesProcessed(g: seq<Node>, root: nat, ctx: Selector)
    requires WellFormed(g) && root < |g|
    ensures var s := EnterSelectorSpec(g, root, ctx); s.Ok? ==> Closed(g, s.value.processed)
  {
    if ctx.root.body.Placeholder? {
      var seed := Expand(g, [root], {});
      ExpandEmitsFreshNodes(g, [root], {});
      ExpandClosesOverChildren(g, [root], {});
      ClosedFromChildrenIn(g, seed.0, seed.1);
    }
  }

  /** Each walk step keeps the processed set closed under child links. */
  lemma {:induction false} WalkKeepsProcessedClosed(g: seq<Node>, ctx: Selector, i: nat, s: ListenerState)
    requires WellFormed(g) && i <= |ctx.nodeSelectors| && InArena(g, s.current) && Closed(g, s.processed)
    ensures var t := WalkSegments(g, ctx, i, s); t.Ok? ==> Closed(g, t.value.processed)
    decreases |ctx.nodeSelectors| - i
  {
    if i < |ctx.nodeSelectors| {
      var next := EnterNodeSelectorSpec(g, ctx, i, s);
      if next.Ok? {
        if ctx.nodeSelectors[i].body.Placeholder? {
          PlaceholderStepSelectsUnprocessedDescendants(g, s.current, s.processed);
        }
        WalkKeepsProcessedClosed(g, ctx, i + 1, next.value);
      }
    }
  }

  /**
   * `/Root/~~` with the root's own name: every node strictly below the
   * root, each once.
   */
  lemma RootThenPlaceholderListsDescendantsOnce(g: seq<Node>, root: nat)
    requires WellFormed(g) && root < |g|
    ensures var r := Evaluate(g, root, Selector(Segment(Named(g[root].name), None), [Segment(Placeholder, None)]));
      && r.Ok? && Distinct(r.value)
      && forall x :: x in r.value <==> Descendant(g, root, x)
  {
    var ctx := Selector(Segment(Named(g[root].name), None), [Segment(Placeholder, None)]);
    var s0 := ListenerState([root], [], {});
    assert EnterSelectorSpec(g, root, ctx) == Ok(s0);
    var res := DescendantsOfAll(g, [root], {});
    var s1 := ListenerState(res.0, [] + res.0, res.1);
    assert EnterNodeSelectorSpec(g, ctx, 0, s0) == Ok(s1);
    assert WalkSegments(g, ctx, 1, s1) == Ok(s1);
    assert Evaluate(g, root, ctx) == Ok(res.0) by {
      assert [] + res.0 == res.0;
    }
    RootDescendantsAreEmitted(g, root);
  }

  /** The `~~` step from the root alone, with nothing processed, emits what lies below it, once each. */
  lemma RootDescendantsAreEmitted(g: seq<Node>, root: nat)
    requires WellFormed(g) && root < |g|
    ensures var out := DescendantsOfAll(g, [root], {}).0;
      Distinct(out) && forall x :: x in out <==> Descendant(g, root, x)
  {
    PlaceholderStepEmitsFreshNodes(g, [root], {});
    PlaceholderStepSelectsUnprocessedDescendants(g, [root], {});
    forall x ensures DescendantOfSome(g, [root], x) <==> Descendant(g, root, x) {
      if Descendant(g, root, x) {
        assert [root][0] == root;
      }
    }
  }

  /** The processed set only grows while the segments are walked. */
  lemma {:induction false} ProcessedOnlyGrows(g: seq<Node>, ctx: Selector, i: nat, s: ListenerState)
    requires WellFormed(g) && i <= |ctx.nodeSelectors| && InArena(g, s.current)
    ensures var t := WalkSegments(g, ctx, i, s);
      t.Ok? ==> s.processed <= t.value.processed
    decreases |ctx.nodeSelectors| - i
  {
    if i < |ctx.nodeSelectors| {
      var next := EnterNodeSelectorSpec(g, ctx, i, s);
      if next.Ok? {
        ProcessedOnlyGrows(g, ctx, i + 1, next.value);
      }
    }
  }

  /** Visiting only processed nodes emits nothing. */
  lemma {:induction false} ExpandOfProcessed(g: seq<Node>, cs: seq<nat>, p: set<nat>)
    requires WellFormed(g) && InArena(g, cs)
    requires forall k :: 0 <= k < |cs| ==> cs[k] in p
    ensures Expand(g, cs, p) == ([], p)
  {
    if cs != [] {
      ExpandOfProcessed(g, cs[1..], p);
    }
  }

  /** A `~~` step over nodes whose children are all processed emits nothing. */
  lemma {:induction false} PlaceholderOverProcessedYieldsNothing(g: seq<Node>, cur: seq<nat>, p: set<nat>)
    requires WellFormed(g) && InArena(g, cur) && ChildrenIn(g, cur, p)
    ensures DescendantsOfAll(g, cur, p) == ([], p)
  {
    if cur != [] {
      ChildrenInArena(g, cur[0]);
      ExpandOfProcessed(g, g[cur[0]].children, p);
      assert ChildrenIn(g, cur[1..], p) by {
        forall i, j | 0 <= i < |cur[1..]| && cur[1..][i] < |g| && 0 <= j < |g[cur[1..][i]].children|
          ensures g[cur[1..][i]].children[j] in p
        {
          assert cur[1..][i] == cur[i + 1];
        }
      }
      PlaceholderOverProcessedYieldsNothing(g, cur[1..], p);
    }
  }

  /** Keeping some nodes of a list keeps its children inside the same set. */
  lemma ChildrenInSubset(g: seq<Node>, xs: seq<nat>, ys: seq<nat>, s: set<nat>)
    requires ChildrenIn(g, xs, s) && forall y :: y in ys ==> y in xs
    ensures ChildrenIn(g, ys, s)
  {
    forall i, j | 0 <= i < |ys| && ys[i] < |g| && 0 <= j < |g[ys[i]].children|
      ensures g[ys[i]].children[j] in s
    {
      assert ys[i] in ys;
      var k :| 0 <= k < |xs| && xs[k] == ys[i];
    }
  }

  /**
   * Two `~~` segments in a row, at any position: the first processes
   * everything below the nodes it starts from, so the second emits
   * nothing, and the result list is left as it was.
   */
  lemma SecondPlaceholderStepEmitsNothing(g: seq<Node>, ctx: Selector, i: nat, s: ListenerState)
    requires WellFormed(g) && i + 1 < |ctx.nodeSelectors| && InArena(g, s.current)
    requires ctx.nodeSelectors[i].body.Placeholder? && ctx.nodeSelectors[i + 1].body.Placeholder?
    ensures var s1 := EnterNodeSelectorSpec(g, ctx, i, s);
      s1.Ok? ==>
        var s2 := EnterNodeSelectorSpec(g, ctx, i + 1, s1.value);
        s2.Ok? && s2.value.current == [] && s2.value.result == s.result
  {
    var s1 := EnterNodeSelectorSpec(g, ctx, i, s);
    if s1.Ok? {
      var step := DescendantsOfAll(g, s.current, s.processed);
      PlaceholderStepEmitsFreshNodes(g, s.current, s.processed);
      ChildrenInSubset(g, step.0, s1.value.current, step.1);
      PlaceholderOverProcessedYieldsNothing(g, s1.value.current, step.1);
      var block := ctx.nodeSelectors[i + 1].attributeSelector;
      if block.Some? {
        FilterThrowsOnlyOnLoneQuote(g, [], block.value);
      }
      assert s.result + [] == s.result;
    }
  }

  /**
   * One step of the walk: segment `i`'s callback, then the walk from the
   * next segment, or the exception; a step before the last one leaves the
   * result as it was.
   */
  lemma WalkSegmentsStep(g: seq<Node>, ctx: Selector, i: nat, s: ListenerState)
    requires WellFormed(g) && i < |ctx.nodeSelectors| && InArena(g, s.current)
    ensures var next := EnterNodeSelectorSpec(g, ctx, i, s);
      && (next.Thrown? ==> WalkSegments(g, ctx, i, s).Thrown?)
      && (next.Ok? ==> WalkSegments(g, ctx, i, s) == WalkSegments(g, ctx, i + 1, next.value))
      && (next.Ok? && i + 1 < |ctx.nodeSelectors| ==> next.value.result == s.result)
  {
  }

  /**
   * Segments `j` and `j + 1` of `ctx` are both `~~`, and the state `s`
   * (before some segment up to `j`) has an empty result.
   */
  ghost predicate PairAhead(g: seq<Node>, ctx: Selector, j: nat, s: ListenerState) {
    && WellFormed(g) && j + 1 < |ctx.nodeSelectors| && InArena(g, s.current)
    && ctx.nodeSelectors[j].body.Placeholder? && ctx.nodeSelectors[j + 1].body.Placeholder?
    && s.result == []
  }

  /** A walk that, if it returns, leaves an empty list and an empty result. */
  ghost predicate EndsEmpty(t: Result<ListenerState>) {
    t.Ok? ==> t.value.current == [] && t.value.result == []
  }

  /**
   * Walking from segment `i` while the result is still empty, with `~~`
   * at `j` and `j + 1` for some `j >= i`: the walk ends with an empty list
   * and an empty result.
   */
  lemma {:induction false} WalkThroughPlaceholderPairIsEmpty(g: seq<Node>, ctx: Selector, i: nat, j: nat, s: ListenerState)
    requires i <= j && PairAhead(g, ctx, j, s)
    ensures EndsEmpty(WalkSegments(g, ctx, i, s))
    decreases j - i, 1
  {
    if i < j {
      WalkBeforePlaceholderPairIsEmpty(g, ctx, i, j, s);
    } else {
      PlaceholderPairEmptiesWalk(g, ctx, j, s);
    }
  }

  /** The step case of the walk above: a segment before the pair leaves the result empty. */
  lemma {:induction false} WalkBeforePlaceholderPairIsEmpty(g: seq<Node>, ctx: Selector, i: nat, j: nat, s: ListenerState)
    requires i < j && PairAhead(g, ctx, j, s)
    ensures EndsEmpty(WalkSegments(g, ctx, i, s))
    decreases j - i, 0
  {
    StepBeforePair(g, ctx, i, j, s);
    WalkThroughPlaceholderPairIsEmpty(g, ctx, i + 1, j, AfterSegment(g, ctx, i, s));
  }

  /** The state after segment `i`, or `s` itself when that segment throws. */
  ghost function AfterSegment(g: seq<Node>, ctx: Selector, i: nat, s: ListenerState): ListenerState
    requires WellFormed(g) && i < |ctx.nodeSelectors| && InArena(g, s.current)
  {
    var next := EnterNodeSelectorSpec(g, ctx, i, s);
    if next.Ok? then next.value else s
  }

  /** A segment before the pair either throws or hands on a state that still has an empty result. */
  lemma StepBeforePair(g: seq<Node>, ctx: Selector, i: nat, j: nat, s: ListenerState)
    requires i < j && PairAhead(g, ctx, j, s)
    ensures PairAhead(g, ctx, j, AfterSegment(g, ctx, i, s))
    ensures EndsEmpty(WalkSegments(g, ctx, i + 1, AfterSegment(g, ctx, i, s))) ==> EndsEmpty(WalkSegments(g, ctx, i, s))
  {
    WalkSegmentsStep(g, ctx, i, s);
  }

  /** A walk that starts at a `~~` directly followed by another ends empty and adds nothing to the result. */
  lemma PlaceholderPairEmptiesWalk(g: seq<Node>, ctx: Selector, j: nat, s: ListenerState)
    requires WellFormed(g) && j + 1 < |ctx.nodeSelectors| && InArena(g, s.current)
    requires ctx.nodeSelectors[j].body.Placeholder? && ctx.nodeSelectors[j + 1].body.Placeholder?
    ensures var t := WalkSegments(g, ctx, j, s);
      t.Ok? ==> t.value.current == [] && t.value.result == s.result
  {
    var s1 := EnterNodeSelectorSpec(g, ctx, j, s);
    WalkSegmentsStep(g, ctx, j, s);
    if s1.Ok? {
      SecondPlaceholderStepEmitsNothing(g, ctx, j, s);
      WalkSegmentsStep(g, ctx, j + 1, s1.value);
      var s2 := EnterNodeSelectorSpec(g, ctx, j + 1, s1.value);
      EmptyListStaysEmpty(g, ctx, j + 2, s2.value);
    }
  }

  /**
   * Two `~~` segments in a row anywhere after the root segment (as in
   * `/Root/~~/~~` or `/Root/Child/~~/~~/Leaf`): the selector selects nothing.
   */
  lemma PlaceholderAfterPlaceholderYieldsNothing(g: seq<Node>, root: nat, ctx: Selector, j: nat)
    requires WellFormed(g) && root < |g|
    requires j + 1 < |ctx.nodeSelectors|
    requires ctx.nodeSelectors[j].body.Placeholder? && ctx.nodeSelectors[j + 1].body.Placeholder?
    ensures var r := Evaluate(g, root, ctx); r.Ok? ==> r.value == []
  {
    var s0 := EnterSelectorSpec(g, root, ctx);
    if s0.Ok? {
      WalkThroughPlaceholderPairIsEmpty(g, ctx, 0, j, s0.value);
    }
  }

  /**
   * A root `~~` followed by a `~~` segment, whatever comes after (as in
   * `/~~/~~` or `/~~/~~/Leaf`): the root `~~` processes every reachable
   * node, so the selector selects nothing.
   */
  lemma RootPlaceholderThenPlaceholderYieldsNothing(g: seq<Node>, root: nat, ctx: Selector)
    requires WellFormed(g) && root < |g|
    requires ctx.root.body.Placeholder? && |ctx.nodeSelectors| >= 1 && ctx.nodeSelectors[0].body.Placeholder?
    ensures var r := Evaluate(g, root, ctx); r.Ok? ==> r.value == []
  {
    var s0 := EnterSelectorSpec(g, root, ctx);
    if s0.Ok? {
      var seed := Expand(g, [root], {});
      ExpandClosesOverChildren(g, [root], {});
      ChildrenInSubset(g, seed.0, s0.value.current, seed.1);
      PlaceholderOverProcessedYieldsNothing(g, s0.value.current, seed.1);
      var block := ctx.nodeSelectors[0].attributeSelector;
      if block.Some? {
        FilterThrowsOnlyOnLoneQuote(g, [], block.value);
      }
      var s1 := EnterNodeSelectorSpec(g, ctx, 0, s0.value);
      assert s1.Ok? && s1.value.current == [] && s1.value.result == [];
      EmptyListStaysEmpty(g, ctx, 1, s1.value);
    }
  }

  /** Some segment of the selector, the root one included, has a lone-quote key or value. */
  predicate SelectorHasLoneQuote(ctx: Selector) {
    || HasLoneQuote(ctx.root.attributeSelector)
    || exists k :: 0 <= k < |ctx.nodeSelectors| && HasLoneQuote(ctx.nodeSelectors[k].attributeSelector)
  }

  /** A walk from segment `i` throws only when a segment from `i` on has a lone quote. */
  lemma {:induction false} WalkThrowsOnlyOnLoneQuote(g: seq<Node>, ctx: Selector, i: nat, s: ListenerState)
    requires WellFormed(g) && i <= |ctx.nodeSelectors| && InArena(g, s.current)
    ensures WalkSegments(g, ctx, i, s).Thrown? ==>
      exists k :: i <= k < |ctx.nodeSelectors| && HasLoneQuote(ctx.nodeSelectors[k].attributeSelector)
    decreases |ctx.nodeSelectors| - i
  {
    if i < |ctx.nodeSelectors| {
      var seg := ctx.nodeSelectors[i];
      var next := EnterNodeSelectorSpec(g, ctx, i, s);
      if next.Ok? {
        WalkThrowsOnlyOnLoneQuote(g, ctx, i + 1, next.value);
      } else if seg.attributeSelector.Some? {
        var step := SegmentStep(g, seg.body, s.current, s.processed);
        FilterThrowsOnlyOnLoneQuote(g, step.0, seg.attributeSelector.value);
        assert HasLoneQuote(seg.attributeSelector);
      }
    }
  }

  /**
   * The only exception a walk can raise comes from a lone `'` in some
   * attribute block: a selector without one is always evaluated.
   */
  lemma EvaluateThrowsOnlyOnLoneQuote(g: seq<Node>, root: nat, ctx: Selector)
    requires WellFormed(g) && root < |g|
    ensures Evaluate(g, root, ctx).Thrown? ==> SelectorHasLoneQuote(ctx)
  {
    var s0 := EnterSelectorSpec(g, root, ctx);
    if s0.Ok? {
      WalkThrowsOnlyOnLoneQuote(g, ctx, 0, s0.value);
    } else {
      var seed := SeedRoot(g, root, ctx.root.body);
      FilterThrowsOnlyOnLoneQuote(g, seed.value.0, ctx.root.attributeSelector.value);
    }
  }
}
