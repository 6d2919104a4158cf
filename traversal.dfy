/**
 * The recursive collectors of both listeners, and the child-matching step
 * they share.  A traversal threads the listener's `processedNodes` set: a node
 * already in it is skipped, so no node is emitted twice and the recursion
 * ends on any finite arena, cyclic or not.
 */
module Traversal {
  import opened TreeNodes
  import opened Sequences

  /** Every element of `xs` designates a node of the arena. */
  ghost predicate InArena(g: seq<Node>, xs: seq<nat>) {
    forall k :: 0 <= k < |xs| ==> xs[k] < |g|
  }

  /** The nodes not yet processed; a traversal step that marks a node shrinks it. */
  ghost function Unvisited(g: seq<Node>, p: set<nat>): set<nat> {
    set i | 0 <= i < |g| && i !in p
  }

  /** Two lists of arena nodes joined are a list of arena nodes. */
  lemma InArenaConcat(g: seq<Node>, a: seq<nat>, b: seq<nat>)
    requires InArena(g, a) && InArena(g, b)
    ensures InArena(g, a + b)
  {
    forall k | 0 <= k < |a + b| ensures (a + b)[k] < |g| {
      if k < |a| { assert (a + b)[k] == a[k]; } else { assert (a + b)[k] == b[k - |a|]; }
    }
  }

  lemma ChildrenInArena(g: seq<Node>, n: nat)
    requires WellFormed(g) && n < |g|
    ensures InArena(g, g[n].children)
  {
    forall k | 0 <= k < |g[n].children|
      ensures g[n].children[k] < |g|
    {
    }
  }

  /**
   * Visits `cs` in order from processed set `p`: a node already processed is
   * skipped; any other is marked, emitted, and followed by the visit of its
   * own children.  Returns the emitted nodes and the grown processed set.
   * `Expand(g, [n], p)` is `collectNodesRecursively(n, ...)`;
   * `Expand(g, g[n].children, p)` is `collectDescendantsRecursively(n, ...)`.
   */
  function Expand(g: seq<Node>, cs: seq<nat>, p: set<nat>): (res: (seq<nat>, set<nat>))
    requires WellFormed(g) && InArena(g, cs)
    ensures p <= res.1 && InArena(g, res.0)
    decreases Unvisited(g, p), |cs|
  {
    if cs == [] then ([], p)
    else if cs[0] in p then Expand(g, cs[1..], p)
    else
      var c := cs[0];
      assert c in Unvisited(g, p) && c !in Unvisited(g, p + {c});
      ChildrenInArena(g, c);
      var inner := Expand(g, g[c].children, p + {c});
      assert Unvisited(g, inner.1) <= Unvisited(g, p + {c});
      var rest := Expand(g, cs[1..], inner.1);
      ([c] + inner.0 + rest.0, rest.1)
  }

  /** `path` follows child links from its first node to its last. */
  ghost predicate IsPath(g: seq<Node>, path: seq<nat>) {
    && |path| > 0
    && InArena(g, path)
    && forall k :: 0 <= k < |path| - 1 ==> path[k + 1] in g[path[k]].children
  }

  /** `to` is `from` or lies below it. */
  ghost predicate Reachable(g: seq<Node>, from: nat, to: nat) {
    exists path :: IsPath(g, path) && path[0] == from && path[|path| - 1] == to
  }

  /** `to` lies below `from`: a path of at least one child link joins them. */
  ghost predicate Descendant(g: seq<Node>, from: nat, to: nat) {
    exists path :: IsPath(g, path) && |path| >= 2 && path[0] == from && path[|path| - 1] == to
  }

  /** Every child of a node of `xs` is in `s`. */
  ghost predicate ChildrenIn(g: seq<Node>, xs: seq<nat>, s: set<nat>) {
    forall i, j :: 0 <= i < |xs| && xs[i] < |g| && 0 <= j < |g[xs[i]].children| ==> g[xs[i]].children[j] in s
  }

  /** No child link leaves `s`. */
  ghost predicate Closed(g: seq<Node>, s: set<nat>) {
    forall x, c :: x in s && x < |g| && c in g[x].children ==> c in s
  }

  /**
   * A visit emits only nodes that were not processed before, each once, and
   * the processed set grows by exactly the emitted nodes.
   */
  lemma {:induction false} ExpandEmitsFreshNodes(g: seq<Node>, cs: seq<nat>, p: set<nat>)
    requires WellFormed(g) && InArena(g, cs)
    ensures var res := Expand(g, cs, p);
      && (forall x :: x in res.0 ==> x !in p && x < |g|)
      && (forall x :: x in res.1 <==> x in p || x in res.0)
      && Distinct(res.0)
    decreases Unvisited(g, p), |cs|
  {
    if cs == [] {
    } else if cs[0] in p {
      ExpandEmitsFreshNodes(g, cs[1..], p);
    } else {
      var c := cs[0];
      assert c in Unvisited(g, p) && c !in Unvisited(g, p + {c});
      ChildrenInArena(g, c);
      var inner := Expand(g, g[c].children, p + {c});
      assert Unvisited(g, inner.1) <= Unvisited(g, p + {c});
      var rest := Expand(g, cs[1..], inner.1);
      ExpandEmitsFreshNodes(g, g[c].children, p + {c});
      ExpandEmitsFreshNodes(g, cs[1..], inner.1);
      DistinctConcat([c], inner.0);
      DistinctConcat([c] + inner.0, rest.0);
      assert Expand(g, cs, p) == ([c] + inner.0 + rest.0, rest.1);
    }
  }

  /**
   * After a visit, every node of `cs` and every child of an emitted node is
   * processed: nothing below an emitted node is left unvisited.
   */
  lemma {:induction false} ExpandClosesOverChildren(g: seq<Node>, cs: seq<nat>, p: set<nat>)
    requires WellFormed(g) && InArena(g, cs)
    ensures var res := Expand(g, cs, p);
      && (forall c :: c in cs ==> c in res.1)
      && ChildrenIn(g, res.0, res.1)
    decreases Unvisited(g, p), |cs|
  {
    if cs == [] {
    } else if cs[0] in p {
      ExpandClosesOverChildren(g, cs[1..], p);
      assert cs == [cs[0]] + cs[1..];
      assert Expand(g, cs, p) == Expand(g, cs[1..], p);
    } else {
      var c := cs[0];
      assert c in Unvisited(g, p) && c !in Unvisited(g, p + {c});
      ChildrenInArena(g, c);
      var inner := Expand(g, g[c].children, p + {c});
      assert Unvisited(g, inner.1) <= Unvisited(g, p + {c});
      var rest := Expand(g, cs[1..], inner.1);
      ExpandClosesOverChildren(g, g[c].children, p + {c});
      ExpandClosesOverChildren(g, cs[1..], inner.1);
      assert cs == [c] + cs[1..];
      assert Expand(g, cs, p) == ([c] + inner.0 + rest.0, rest.1);
      var out := [c] + inner.0 + rest.0;
      forall i, j | 0 <= i < |out| && out[i] < |g| && 0 <= j < |g[out[i]].children|
        ensures g[out[i]].children[j] in rest.1
      {
        if i == 0 {
          assert g[c].children[j] in g[c].children;
        } else if i < 1 + |inner.0| {
          assert out[i] == inner.0[i - 1];
        } else {
          assert out[i] == rest.0[i - 1 - |inner.0|];
        }
      }
    }
  }

  /** A visit never leaves a set closed under child links that holds `cs`. */
  lemma {:induction false} ExpandStaysWithin(g: seq<Node>, cs: seq<nat>, p: set<nat>, s: set<nat>)
    requires WellFormed(g) && InArena(g, cs)
    requires Closed(g, s) && forall c :: c in cs ==> c in s
    ensures forall x :: x in Expand(g, cs, p).0 ==> x in s
    decreases Unvisited(g, p), |cs|
  {
    if cs == [] {
    } else if cs[0] in p {
      ExpandStaysWithin(g, cs[1..], p, s);
    } else {
      var c := cs[0];
      assert c in Unvisited(g, p) && c !in Unvisited(g, p + {c});
      ChildrenInArena(g, c);
      var inner := Expand(g, g[c].children, p + {c});
      assert Unvisited(g, inner.1) <= Unvisited(g, p + {c});
      ExpandStaysWithin(g, g[c].children, p + {c}, s);
      ExpandStaysWithin(g, cs[1..], inner.1, s);
    }
  }

  /** Following child links from a member of a closed set never leaves it. */
  lemma {:induction false} PathStaysInClosedSet(g: seq<Node>, path: seq<nat>, s: set<nat>)
    requires IsPath(g, path) && Closed(g, s) && path[0] in s
    ensures path[|path| - 1] in s
    decreases |path|
  {
    if |path| > 1 {
      var front := path[..|path| - 1];
      assert IsPath(g, front) by {
        forall k | 0 <= k < |front| ensures front[k] < |g| {
          assert front[k] == path[k];
        }
        forall k | 0 <= k < |front| - 1 ensures front[k + 1] in g[front[k]].children {
          assert front[k] == path[k] && front[k + 1] == path[k + 1];
        }
      }
      PathStaysInClosedSet(g, front, s);
      var last := path[|path| - 2];
      assert last == front[|front| - 1] && last in path;
      assert path[|path| - 1] in g[last].children;
    }
  }

  /** The nodes reachable from `n` form a set closed under child links. */
  lemma ReachableSetIsClosed(g: seq<Node>, n: nat)
    requires WellFormed(g)
    ensures Closed(g, set x | 0 <= x < |g| && Reachable(g, n, x))
  {
    var s := set x | 0 <= x < |g| && Reachable(g, n, x);
    forall x, c | x in s && x < |g| && c in g[x].children
      ensures c in s
    {
      var path :| IsPath(g, path) && path[0] == n && path[|path| - 1] == x;
      var longer := path + [c];
      assert longer[|longer| - 1] == c && longer[0] == n;
      assert IsPath(g, longer) by {
        forall k | 0 <= k < |longer| ensures longer[k] < |g| {
          if k < |path| {
            assert longer[k] == path[k];
          } else {
            var j :| 0 <= j < |g[x].children| && g[x].children[j] == c;
          }
        }
        forall k | 0 <= k < |longer| - 1 ensures longer[k + 1] in g[longer[k]].children {
          if k < |path| - 1 {
            assert longer[k] == path[k] && longer[k + 1] == path[k + 1];
          }
        }
      }
    }
  }

  /** The nodes strictly below `n` form a set closed under child links. */
  lemma DescendantSetIsClosed(g: seq<Node>, n: nat)
    requires WellFormed(g)
    ensures Closed(g, set x | 0 <= x < |g| && Descendant(g, n, x))
  {
    var s := set x | 0 <= x < |g| && Descendant(g, n, x);
    forall x, c | x in s && x < |g| && c in g[x].children
      ensures c in s
    {
      var path :| IsPath(g, path) && |path| >= 2 && path[0] == n && path[|path| - 1] == x;
      var longer := path + [c];
      assert longer[|longer| - 1] == c && longer[0] == n;
      assert IsPath(g, longer) by {
        forall k | 0 <= k < |longer| ensures longer[k] < |g| {
          if k < |path| {
            assert longer[k] == path[k];
          } else {
            var j :| 0 <= j < |g[x].children| && g[x].children[j] == c;
          }
        }
        forall k | 0 <= k < |longer| - 1 ensures longer[k + 1] in g[longer[k]].children {
          if k < |path| - 1 {
            assert longer[k] == path[k] && longer[k + 1] == path[k + 1];
          }
        }
      }
    }
  }

  /** A list whose nodes have all their children in the list spans a closed set. */
  lemma ClosedFromChildrenIn(g: seq<Node>, xs: seq<nat>, s: set<nat>)
    requires ChildrenIn(g, xs, s) && forall x :: x in s <==> x in xs
    ensures Closed(g, s)
  {
    forall x, c | x in s && x < |g| && c in g[x].children
      ensures c in s
    {
      var i :| 0 <= i < |xs| && xs[i] == x;
      var j :| 0 <= j < |g[x].children| && g[x].children[j] == c;
    }
  }

  /**
   * `collectNodesRecursively(root)` started with an empty processed set lists
   * `root` first and then every other node reachable from it, each exactly
   * once, and nothing else.
   */
  lemma {:induction false} CollectAllListsReachableNodesOnce(g: seq<Node>, root: nat)
    requires WellFormed(g) && root < |g|
    ensures var out := Expand(g, [root], {}).0;
      && |out| > 0 && out[0] == root
      && Distinct(out)
      && forall x :: x in out <==> Reachable(g, root, x)
  {
    var res := Expand(g, [root], {});
    ChildrenInArena(g, root);
    var none: set<nat> := {};
    var inner := Expand(g, g[root].children, none + {root});
    assert [root][1..] == [];
    assert res.0 == [root] + inner.0 + Expand(g, [], inner.1).0;
    ExpandEmitsFreshNodes(g, [root], {});
    ExpandClosesOverChildren(g, [root], {});
    var reach := set x | 0 <= x < |g| && Reachable(g, root, x);
    ReachableSetIsClosed(g, root);
    assert IsPath(g, [root]);
    assert root in reach;
    ExpandStaysWithin(g, [root], {}, reach);
    ClosedFromChildrenIn(g, res.0, res.1);
    forall x | Reachable(g, root, x)
      ensures x in res.0
    {
      var path :| IsPath(g, path) && path[0] == root && path[|path| - 1] == x;
      PathStaysInClosedSet(g, path, res.1);
    }
  }

  /**
   * `collectDescendantsRecursively(n)` started with an empty processed set
   * lists every node below `n` exactly once, and nothing else.
   */
  lemma {:induction false} CollectDescendantsListsDescendantsOnce(g: seq<Node>, n: nat)
    requires WellFormed(g) && n < |g|
    ensures var out := Expand(g, g[n].children, {}).0;
      && Distinct(out)
      && forall x :: x in out <==> Descendant(g, n, x)
  {
    ChildrenInArena(g, n);
    var cs := g[n].children;
    var res := Expand(g, cs, {});
    ExpandEmitsFreshNodes(g, cs, {});
    ExpandClosesOverChildren(g, cs, {});
    var below := set x | 0 <= x < |g| && Descendant(g, n, x);
    DescendantSetIsClosed(g, n);
    forall c | c in cs
      ensures c in below
    {
      var j :| 0 <= j < |cs| && cs[j] == c;
      assert IsPath(g, [n, c]);
    }
    ExpandStaysWithin(g, cs, {}, below);
    ClosedFromChildrenIn(g, res.0, res.1);
    forall x | Descendant(g, n, x)
      ensures x in res.0
    {
      var path :| IsPath(g, path) && |path| >= 2 && path[0] == n && path[|path| - 1] == x;
      PathTail(g, path);
      PathStaysInClosedSet(g, path[1..], res.1);
    }
  }

  /** Dropping the first node of a path of two or more nodes leaves a path from a child of it. */
  lemma PathTail(g: seq<Node>, path: seq<nat>)
    requires IsPath(g, path) && |path| >= 2
    ensures IsPath(g, path[1..]) && path[1] in g[path[0]].children
    ensures path[1..][0] == path[1] && path[1..][|path| - 2] == path[|path| - 1]
  {
    var tail := path[1..];
    forall k | 0 <= k < |tail| ensures tail[k] < |g| {
      assert tail[k] == path[k + 1];
    }
    forall k | 0 <= k < |tail| - 1 ensures tail[k + 1] in g[tail[k]].children {
      assert tail[k] == path[k + 1] && tail[k + 1] == path[k + 2];
    }
  }

  /** Node `x` passes a segment's name test: `*` takes every node, a name only nodes called so. */
  ghost predicate NameMatches(g: seq<Node>, x: nat, wildcard: bool, name: string) {
    x < |g| && (wildcard || g[x].name == name)
  }

  /** The nodes of `xs`, in order, that `*` (`wildcard`) or the segment name `name` selects. */
  function NameFilter(g: seq<Node>, xs: seq<nat>, wildcard: bool, name: string): (r: seq<nat>)
    requires InArena(g, xs)
    ensures InArena(g, r) && |r| <= |xs|
  {
    if xs == [] then []
    else (if wildcard || g[xs[0]].name == name then [xs[0]] else []) + NameFilter(g, xs[1..], wildcard, name)
  }

  /**
   * The children of the nodes of `cur` that the segment selects, parent by
   * parent and each parent's children in order; a child reached from two
   * entries of `cur` is listed twice.
   */
  function MatchingChildren(g: seq<Node>, cur: seq<nat>, wildcard: bool, name: string): (r: seq<nat>)
    requires WellFormed(g) && InArena(g, cur)
    ensures InArena(g, r)
  {
    if cur == [] then []
    else NameFilter(g, g[cur[0]].children, wildcard, name) + MatchingChildren(g, cur[1..], wildcard, name)
  }

  /** Filtering by name keeps the order of `xs`. */
  lemma {:induction false} NameFilterIsSubsequence(g: seq<Node>, xs: seq<nat>, wildcard: bool, name: string)
    requires InArena(g, xs)
    ensures IsSubsequence(NameFilter(g, xs, wildcard, name), xs)
  {
    if xs != [] {
      var rest := NameFilter(g, xs[1..], wildcard, name);
      NameFilterIsSubsequence(g, xs[1..], wildcard, name);
      assert xs == [xs[0]] + xs[1..];
      SubsequenceCons(xs[0], rest, xs[1..]);
      if wildcard || g[xs[0]].name == name {
        assert NameFilter(g, xs, wildcard, name) == [xs[0]] + rest;
      } else {
        assert NameFilter(g, xs, wildcard, name) == rest;
      }
    }
  }

  /**
   * Filtering by name keeps every selected node as often as it occurs in
   * `xs` and drops every other node.
   */
  lemma {:induction false} NameFilterKeepsSelected(g: seq<Node>, xs: seq<nat>, wildcard: bool, name: string)
    requires InArena(g, xs)
    ensures var r := NameFilter(g, xs, wildcard, name);
      && (forall x :: multiset(r)[x] == if NameMatches(g, x, wildcard, name) then multiset(xs)[x] else 0)
      && (forall x :: x in r <==> x in xs && NameMatches(g, x, wildcard, name))
  {
    var r := NameFilter(g, xs, wildcard, name);
    if xs != [] {
      var head := xs[0];
      var rest := NameFilter(g, xs[1..], wildcard, name);
      NameFilterKeepsSelected(g, xs[1..], wildcard, name);
      assert xs == [head] + xs[1..];
      assert multiset(xs) == multiset([head]) + multiset(xs[1..]);
      var kept := if wildcard || g[head].name == name then [head] else [];
      assert r == kept + rest;
      assert multiset(r) == multiset(kept) + multiset(rest);
      forall x
        ensures multiset(r)[x] == if NameMatches(g, x, wildcard, name) then multiset(xs)[x] else 0
      {
        if x == head {
          assert NameMatches(g, x, wildcard, name) <==> kept == [head];
        }
      }
      forall x
        ensures x in r <==> x in xs && NameMatches(g, x, wildcard, name)
      {
        assert x in r <==> multiset(r)[x] > 0;
        assert x in xs <==> multiset(xs)[x] > 0;
      }
    }
  }

  /** A `*` segment keeps every node. */
  lemma {:induction false} NameFilterWildcardKeepsAll(g: seq<Node>, xs: seq<nat>, name: string)
    requires InArena(g, xs)
    ensures NameFilter(g, xs, true, name) == xs
  {
    if xs != [] {
      NameFilterWildcardKeepsAll(g, xs[1..], name);
      assert xs == [xs[0]] + xs[1..];
    }
  }

  /** `x` is a child of some node of `cur`. */
  ghost predicate ChildOfSome(g: seq<Node>, cur: seq<nat>, x: nat) {
    exists k :: 0 <= k < |cur| && cur[k] < |g| && x in g[cur[k]].children
  }

  /** A child step returns exactly the selected children of the current nodes. */
  lemma {:induction false} MatchingChildrenAreSelectedChildren(g: seq<Node>, cur: seq<nat>, wildcard: bool, name: string)
    requires WellFormed(g) && InArena(g, cur)
    ensures forall x :: x in MatchingChildren(g, cur, wildcard, name) <==>
      ChildOfSome(g, cur, x) && NameMatches(g, x, wildcard, name)
  {
    if cur != [] {
      var here := NameFilter(g, g[cur[0]].children, wildcard, name);
      NameFilterKeepsSelected(g, g[cur[0]].children, wildcard, name);
      MatchingChildrenAreSelectedChildren(g, cur[1..], wildcard, name);
      forall x
        ensures x in MatchingChildren(g, cur, wildcard, name) <==>
          ChildOfSome(g, cur, x) && NameMatches(g, x, wildcard, name)
      {
        if ChildOfSome(g, cur, x) && NameMatches(g, x, wildcard, name) {
          var k :| 0 <= k < |cur| && cur[k] < |g| && x in g[cur[k]].children;
          if k > 0 {
            assert cur[1..][k - 1] == cur[k];
            assert ChildOfSome(g, cur[1..], x);
          }
        }
        if x in MatchingChildren(g, cur[1..], wildcard, name) {
          var k :| 0 <= k < |cur[1..]| && cur[1..][k] < |g| && x in g[cur[1..][k]].children;
          assert cur[k + 1] == cur[1..][k];
        }
      }
    }
  }

  /** One more current node appends the selected children of that node. */
  lemma MatchingChildrenSnoc(g: seq<Node>, cur: seq<nat>, k: nat, wildcard: bool, name: string)
    requires WellFormed(g) && InArena(g, cur) && k < |cur|
    ensures InArena(g, g[cur[k]].children)
    ensures MatchingChildren(g, cur[..k + 1], wildcard, name)
      == MatchingChildren(g, cur[..k], wildcard, name) + NameFilter(g, g[cur[k]].children, wildcard, name)
  {
    ChildrenInArena(g, cur[k]);
    assert cur[..k + 1] == cur[..k] + [cur[k]];
    MatchingChildrenAppend(g, cur[..k], [cur[k]], wildcard, name);
    assert [cur[k]][1..] == [];
  }

  /** A child step distributes over concatenation of the current list: order is parent by parent. */
  lemma {:induction false} MatchingChildrenAppend(g: seq<Node>, a: seq<nat>, b: seq<nat>, wildcard: bool, name: string)
    requires WellFormed(g) && InArena(g, a) && InArena(g, b)
    ensures InArena(g, a + b)
    ensures MatchingChildren(g, a + b, wildcard, name)
      == MatchingChildren(g, a, wildcard, name) + MatchingChildren(g, b, wildcard, name)
  {
    assert InArena(g, a + b) by {
      forall k | 0 <= k < |a + b| ensures (a + b)[k] < |g| {
        if k < |a| { assert (a + b)[k] == a[k]; } else { assert (a + b)[k] == b[k - |a|]; }
      }
    }
    if a == [] {
      assert a + b == b;
    } else {
      assert (a + b)[0] == a[0] && (a + b)[1..] == a[1..] + b;
      MatchingChildrenAppend(g, a[1..], b, wildcard, name);
      calc {
        MatchingChildren(g, a + b, wildcard, name);
        NameFilter(g, g[a[0]].children, wildcard, name) + MatchingChildren(g, a[1..] + b, wildcard, name);
        NameFilter(g, g[a[0]].children, wildcard, name) + (MatchingChildren(g, a[1..], wildcard, name) + MatchingChildren(g, b, wildcard, name));
        MatchingChildren(g, a, wildcard, name) + MatchingChildren(g, b, wildcard, name);
      }
    }
  }

  /** Filtering a list extended by one node extends the filtered list by that node if it is selected. */
  lemma {:induction false} NameFilterSnoc(g: seq<Node>, xs: seq<nat>, x: nat, wildcard: bool, name: string)
    requires InArena(g, xs) && x < |g|
    ensures InArena(g, xs + [x])
    ensures NameFilter(g, xs + [x], wildcard, name)
      == NameFilter(g, xs, wildcard, name) + (if wildcard || g[x].name == name then [x] else [])
  {
    assert InArena(g, xs + [x]) by {
      forall k | 0 <= k < |xs + [x]| ensures (xs + [x])[k] < |g| {
        if k < |xs| { assert (xs + [x])[k] == xs[k]; }
      }
    }
    var sel := if wildcard || g[x].name == name then [x] else [];
    if xs == [] {
      assert [] + [x] == [x] && [x][1..] == [];
    } else {
      var head := if wildcard || g[xs[0]].name == name then [xs[0]] else [];
      assert (xs + [x])[0] == xs[0] && (xs + [x])[1..] == xs[1..] + [x];
      NameFilterSnoc(g, xs[1..], x, wildcard, name);
      calc {
        NameFilter(g, xs + [x], wildcard, name);
        head + NameFilter(g, xs[1..] + [x], wildcard, name);
        head + (NameFilter(g, xs[1..], wildcard, name) + sel);
        (head + NameFilter(g, xs[1..], wildcard, name)) + sel;
      }
    }
  }
}
