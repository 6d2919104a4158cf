/**
 * Attribute blocks `{key=value, ...}`: quote stripping, matching of one
 * `key=value` expression against a node, and the all-must-match filter
 * that filterNodesByAttributes computes.
 */
module AttributeMatching {
  import opened Wrappers
  import opened TreeNodes
  import opened ParseTree
  import opened Sequences
  import opened Traversal

  /** Quoting `s` in single quotes, as a selector may write a key or value. */
  function Quoted(s: string): string {
    "'" + s + "'"
  }

  /**
   * cleanAttributeValue: a text that starts and ends with `'` loses its
   * first and last character; any other text is returned unchanged.  A lone
   * `'` both starts and ends with a quote, and `substring(1, 0)` throws.
   */
  function CleanAttributeValue(value: string): (r: Result<string>)
    ensures r.Thrown? <==> value == "'"
    ensures r.Ok? ==> r.value == value || Quoted(r.value) == value
  {
    if |value| > 0 && value[0] == '\'' && value[|value| - 1] == '\'' then
      if |value| == 1 then Thrown(StringIndexOutOfBounds) else Ok(value[1..|value| - 1])
    else
      Ok(value)
  }

  /** Stripping undoes quoting, for every text, quotes inside it included. */
  lemma CleanAttributeValueUnquotes(s: string)
    ensures CleanAttributeValue(Quoted(s)) == Ok(s)
  {
    var q := Quoted(s);
    assert q[0] == '\'' && q[|q| - 1] == '\'' && q[1..|q| - 1] == s;
  }

  /** A text that does not both start and end with a quote is left as it is. */
  lemma CleanAttributeValueKeepsUnquoted(value: string)
    requires value == [] || value[0] != '\'' || value[|value| - 1] != '\''
    ensures CleanAttributeValue(value) == Ok(value)
  {
  }

  /**
   * compareVersions: exact string equality with the node's version; a node
   * without a version never matches.  No semantic version ordering.
   */
  function CompareVersions(selectorVersion: string, nodeVersion: Option<string>): (r: bool)
    ensures r <==> nodeVersion == Some(selectorVersion)
  {
    match nodeVersion
    case None => false
    case Some(v) => selectorVersion == v
  }

  /**
   * The else-if chain of filterNodesByAttributes for a non-wildcard value:
   * `type`, `variant` and `version` are first compared with the built-in
   * field; when that fails (and for every other key) the custom attribute
   * map is consulted.
   */
  function KeyMatches(node: Node, key: string, value: string): (r: bool)
    ensures key in node.attributes && node.attributes[key] == value ==> r
    ensures key != "type" && key != "variant" && key != "version" ==>
      (r <==> key in node.attributes && node.attributes[key] == value)
    ensures key == "version" && node.version == Some(value) ==> r
  {
    || (key == "type" && node.nodeType == Some(value))
    || (key == "variant" && node.variant == Some(value))
    || (key == "version" && CompareVersions(value, node.version))
    || (key in node.attributes && node.attributes[key] == value)
  }

  /**
   * One `key=value` expression against one node: both texts are cleaned
   * (key first), a value of `*` matches every node, otherwise KeyMatches.
   */
  function ExprMatches(node: Node, e: AttributeExpr): (r: Result<bool>)
    ensures r.Thrown? <==> e.attributeName == "'" || e.attributeValue == "'"
    ensures r.Ok? && (e.attributeValue == "*" || e.attributeValue == Quoted("*")) ==> r.value
  {
    var key :- CleanAttributeValue(e.attributeName);
    var value :- CleanAttributeValue(e.attributeValue);
    if value == "*" then Ok(true) else Ok(KeyMatches(node, key, value))
  }

  /**
   * The inner loop of filterNodesByAttributes: expressions are checked in
   * order and the first one that does not match ends the loop (`break`), so
   * later expressions are not cleaned for that node.
   */
  function MatchesAll(node: Node, exprs: seq<AttributeExpr>): (r: Result<bool>)
    ensures exprs == [] ==> r == Ok(true)
    ensures exprs != [] && ExprMatches(node, exprs[0]) == Ok(false) ==> r == Ok(false)
    ensures r.Thrown? ==> exprs != [] && HasLoneQuote(Some(exprs))
  {
    if exprs == [] then Ok(true)
    else
      var m :- ExprMatches(node, exprs[0]);
      if !m then Ok(false) else MatchesAll(node, exprs[1..])
  }

  /** The outer loop of filterNodesByAttributes: the nodes of `nodes`, in order, that match every expression. */
  function KeepMatching(g: seq<Node>, nodes: seq<nat>, exprs: seq<AttributeExpr>): (r: Result<seq<nat>>)
    requires InArena(g, nodes)
    ensures r.Ok? ==> |r.value| <= |nodes|
    ensures exprs == [] ==> r == Ok(nodes)
    ensures r.Thrown? ==> nodes != [] && HasLoneQuote(Some(exprs))
  {
    if nodes == [] then Ok([])
    else
      var m :- MatchesAll(g[nodes[0]], exprs);
      var rest :- KeepMatching(g, nodes[1..], exprs);
      assert exprs == [] ==> m && nodes == [nodes[0]] + rest;
      Ok((if m then [nodes[0]] else []) + rest)
  }

  /**
   * filterNodesByAttributes: an empty expression list returns the input
   * list itself; otherwise the nodes matching every expression, or the
   * exception a cleaning step threw.
   */
  function FilterByAttributes(g: seq<Node>, nodes: seq<nat>, exprs: seq<AttributeExpr>): (r: Result<seq<nat>>)
    requires InArena(g, nodes)
    ensures exprs == [] ==> r == Ok(nodes)
    ensures r.Ok? ==> InArena(g, r.value) && forall x :: x in r.value ==> x in nodes
    ensures r.Thrown? ==> HasLoneQuote(Some(exprs))
  {
    if exprs == [] then Ok(nodes)
    else
      KeepMatchingKeepsSelected(g, nodes, exprs);
      var r := KeepMatching(g, nodes, exprs);
      if r.Ok? then
        assert InArena(g, r.value) by {
          forall k | 0 <= k < |r.value| ensures r.value[k] < |g| {
            assert r.value[k] in nodes;
          }
        }
        r
      else r
  }

  /** An attribute block if the segment has one (`attributeSelector() != null`), else no filtering. */
  function ApplyAttributeSelector(g: seq<Node>, nodes: seq<nat>, block: Option<seq<AttributeExpr>>): (r: Result<seq<nat>>)
    requires InArena(g, nodes)
    ensures r.Ok? ==> InArena(g, r.value) && forall x :: x in r.value ==> x in nodes
    ensures block.None? ==> r == Ok(nodes)
    ensures r.Thrown? ==> HasLoneQuote(block)
  {
    match block
    case None => Ok(nodes)
    case Some(exprs) => FilterByAttributes(g, nodes, exprs)
  }

  /** The block has an expression whose key or value is a lone `'`. */
  predicate HasLoneQuote(block: Option<seq<AttributeExpr>>) {
    block.Some? &&
    exists j :: 0 <= j < |block.value| && (block.value[j].attributeName == "'" || block.value[j].attributeValue == "'")
  }

  /** Node `x` matches every expression of the block. */
  ghost predicate Accepts(g: seq<Node>, x: nat, exprs: seq<AttributeExpr>) {
    x < |g| && MatchesAll(g[x], exprs) == Ok(true)
  }

  /** When the outer loop finishes, its result keeps the order of `nodes`. */
  lemma {:induction false} KeepMatchingIsSubsequence(g: seq<Node>, nodes: seq<nat>, exprs: seq<AttributeExpr>)
    requires InArena(g, nodes)
    ensures var r := KeepMatching(g, nodes, exprs); r.Ok? ==> IsSubsequence(r.value, nodes)
  {
    var r := KeepMatching(g, nodes, exprs);
    if nodes != [] && r.Ok? {
      var m := MatchesAll(g[nodes[0]], exprs);
      var restR := KeepMatching(g, nodes[1..], exprs);
      assert m.Ok? && restR.Ok?;
      KeepMatchingIsSubsequence(g, nodes[1..], exprs);
      assert nodes == [nodes[0]] + nodes[1..];
      SubsequenceCons(nodes[0], restR.value, nodes[1..]);
      if m.value {
        assert r.value == [nodes[0]] + restR.value;
      } else {
        assert r.value == restR.value;
      }
    }
  }

  /**
   * When the outer loop finishes, its result holds every accepted node
   * exactly as often as `nodes` does, and no other node.
   */
  lemma {:induction false} KeepMatchingKeepsSelected(g: seq<Node>, nodes: seq<nat>, exprs: seq<AttributeExpr>)
    requires InArena(g, nodes)
    ensures var r := KeepMatching(g, nodes, exprs);
      r.Ok? ==>
        && (forall x :: multiset(r.value)[x] == if Accepts(g, x, exprs) then multiset(nodes)[x] else 0)
        && (forall x :: x in r.value <==> x in nodes && Accepts(g, x, exprs))
  {
    var r := KeepMatching(g, nodes, exprs);
    if nodes != [] && r.Ok? {
      var head := nodes[0];
      var m := MatchesAll(g[head], exprs);
      var restR := KeepMatching(g, nodes[1..], exprs);
      assert m.Ok? && restR.Ok?;
      KeepMatchingKeepsSelected(g, nodes[1..], exprs);
      assert nodes == [head] + nodes[1..];
      var kept := if m.value then [head] else [];
      assert r.value == kept + restR.value;
      KeepingStep(g, exprs, head, nodes[1..], kept, restR.value);
    }
  }

  /**
   * One step of the outer loop: if `rest` holds the accepted nodes of
   * `tail`, then `kept + rest` holds those of `[head] + tail`.
   */
  lemma KeepingStep(g: seq<Node>, exprs: seq<AttributeExpr>, head: nat, tail: seq<nat>, kept: seq<nat>, rest: seq<nat>)
    requires kept == if Accepts(g, head, exprs) then [head] else []
    requires forall x :: multiset(rest)[x] == if Accepts(g, x, exprs) then multiset(tail)[x] else 0
    ensures forall x :: multiset(kept + rest)[x] == if Accepts(g, x, exprs) then multiset([head] + tail)[x] else 0
    ensures forall x :: x in kept + rest <==> x in [head] + tail && Accepts(g, x, exprs)
  {
    var r := kept + rest;
    var xs := [head] + tail;
    assert multiset(xs) == multiset([head]) + multiset(tail);
    assert multiset(r) == multiset(kept) + multiset(rest);
    forall x
      ensures multiset(r)[x] == if Accepts(g, x, exprs) then multiset(xs)[x] else 0
    {
      if x == head {
        assert Accepts(g, x, exprs) <==> kept == [head];
      }
    }
    forall x
      ensures x in r <==> x in xs && Accepts(g, x, exprs)
    {
      assert x in r <==> multiset(r)[x] > 0;
      assert x in xs <==> multiset(xs)[x] > 0;
    }
  }

  /**
   * filterNodesByAttributes, when it returns: the result keeps the order of
   * `nodes`, holds every node matching all expressions as often as `nodes`
   * does, and holds no other node; with no expressions it is `nodes` itself.
   */
  lemma FilterByAttributesSelects(g: seq<Node>, nodes: seq<nat>, exprs: seq<AttributeExpr>)
    requires InArena(g, nodes)
    ensures var r := FilterByAttributes(g, nodes, exprs);
      r.Ok? ==>
        && IsSubsequence(r.value, nodes)
        && (forall x :: multiset(r.value)[x] == if exprs == [] || Accepts(g, x, exprs) then multiset(nodes)[x] else 0)
        && (forall x :: x in r.value <==> x in nodes && (exprs == [] || Accepts(g, x, exprs)))
  {
    if exprs == [] {
      SubsequenceOfItself(nodes);
    } else {
      KeepMatchingIsSubsequence(g, nodes, exprs);
      KeepMatchingKeepsSelected(g, nodes, exprs);
    }
  }

  /** One expression throws exactly when its key or its value is a lone quote. */
  lemma ExprMatchesThrowsOnLoneQuote(node: Node, e: AttributeExpr)
    ensures ExprMatches(node, e).Thrown? <==> e.attributeName == "'" || e.attributeValue == "'"
  {
  }

  /**
   * A node matches the whole block exactly when it matches every
   * expression: the expressions combine with logical AND.
   */
  lemma {:induction false} MatchesAllIsConjunction(node: Node, exprs: seq<AttributeExpr>)
    ensures MatchesAll(node, exprs) == Ok(true) <==> forall j :: 0 <= j < |exprs| ==> ExprMatches(node, exprs[j]) == Ok(true)
  {
    if exprs != [] {
      MatchesAllIsConjunction(node, exprs[1..]);
      if ExprMatches(node, exprs[0]) == Ok(true) {
        forall j | 0 <= j < |exprs[1..]| ensures exprs[1..][j] == exprs[j + 1] { }
      }
    }
  }

  /**
   * Scanning the block in order, expression `j` is reached (every earlier
   * one matched) and throws.
   */
  ghost predicate ThrowsAt(node: Node, exprs: seq<AttributeExpr>, j: int) {
    && 0 <= j < |exprs|
    && ExprMatches(node, exprs[j]).Thrown?
    && forall i :: 0 <= i < j ==> ExprMatches(node, exprs[i]) == Ok(true)
  }

  lemma ThrowsAtShift(node: Node, exprs: seq<AttributeExpr>, j: int)
    requires exprs != [] && 0 <= j
    ensures ThrowsAt(node, exprs, j + 1) <==> ExprMatches(node, exprs[0]) == Ok(true) && ThrowsAt(node, exprs[1..], j)
  {
    if ExprMatches(node, exprs[0]) == Ok(true) && ThrowsAt(node, exprs[1..], j) {
      forall i | 0 <= i < j + 1 ensures ExprMatches(node, exprs[i]) == Ok(true) {
        if i > 0 { assert exprs[i] == exprs[1..][i - 1]; }
      }
    }
    if ThrowsAt(node, exprs, j + 1) {
      forall i | 0 <= i < j ensures ExprMatches(node, exprs[1..][i]) == Ok(true) {
        assert exprs[1..][i] == exprs[i + 1];
      }
    }
  }

  /**
   * The block throws for a node exactly when, scanning in order, an
   * expression with a lone quote is reached before any expression fails.
   */
  lemma {:induction false} MatchesAllThrows(node: Node, exprs: seq<AttributeExpr>)
    ensures MatchesAll(node, exprs).Thrown? <==> exists j :: ThrowsAt(node, exprs, j)
  {
    if exprs != [] {
      MatchesAllThrows(node, exprs[1..]);
      var first := ExprMatches(node, exprs[0]);
      if first.Thrown? {
        assert ThrowsAt(node, exprs, 0);
      } else if first == Ok(true) {
        if j :| ThrowsAt(node, exprs[1..], j) {
          ThrowsAtShift(node, exprs, j);
        }
        if j :| ThrowsAt(node, exprs, j) {
          assert j > 0;
          ThrowsAtShift(node, exprs, j - 1);
        }
      }
    }
  }

  /** The outer loop throws exactly when the block throws for some node of the list. */
  lemma {:induction false} KeepMatchingThrows(g: seq<Node>, nodes: seq<nat>, exprs: seq<AttributeExpr>)
    requires InArena(g, nodes)
    ensures KeepMatching(g, nodes, exprs).Thrown? <==>
      exists k :: 0 <= k < |nodes| && MatchesAll(g[nodes[k]], exprs).Thrown?
  {
    if nodes != [] {
      KeepMatchingThrows(g, nodes[1..], exprs);
      if exists k :: 0 <= k < |nodes| && MatchesAll(g[nodes[k]], exprs).Thrown? {
        var k :| 0 <= k < |nodes| && MatchesAll(g[nodes[k]], exprs).Thrown?;
        if k > 0 {
          assert nodes[1..][k - 1] == nodes[k];
        }
      }
      if KeepMatching(g, nodes[1..], exprs).Thrown? {
        var k :| 0 <= k < |nodes[1..]| && MatchesAll(g[nodes[1..][k]], exprs).Thrown?;
        assert nodes[k + 1] == nodes[1..][k];
      }
    }
  }

  /**
   * A block without lone-quote keys or values never throws, whatever the
   * nodes; and an empty node list never throws, whatever the block.
   */
  lemma FilterThrowsOnlyOnLoneQuote(g: seq<Node>, nodes: seq<nat>, exprs: seq<AttributeExpr>)
    requires InArena(g, nodes)
    ensures (forall j :: 0 <= j < |exprs| ==> exprs[j].attributeName != "'" && exprs[j].attributeValue != "'")
      ==> FilterByAttributes(g, nodes, exprs).Ok?
    ensures FilterByAttributes(g, [], exprs) == Ok([])
  {
    if exprs != [] {
      KeepMatchingThrows(g, nodes, exprs);
      if forall j :: 0 <= j < |exprs| ==> exprs[j].attributeName != "'" && exprs[j].attributeValue != "'" {
        forall k | 0 <= k < |nodes|
          ensures !MatchesAll(g[nodes[k]], exprs).Thrown?
        {
          MatchesAllThrows(g[nodes[k]], exprs);
          forall j | 0 <= j < |exprs| ensures !ExprMatches(g[nodes[k]], exprs[j]).Thrown? {
            ExprMatchesThrowsOnLoneQuote(g[nodes[k]], exprs[j]);
          }
          assert !exists j :: ThrowsAt(g[nodes[k]], exprs, j);
        }
      }
    }
  }

  /**
   * An expression whose cleaned value is `*` matches every node, also one
   * that lacks the attribute altogether.
   */
  lemma WildcardValueMatchesEveryNode(node: Node, e: AttributeExpr)
    requires CleanAttributeValue(e.attributeName).Ok? && CleanAttributeValue(e.attributeValue) == Ok("*")
    ensures ExprMatches(node, e) == Ok(true)
  {
  }

  /** A block made only of `*`-valued expressions keeps the list as it is. */
  lemma {:induction false} WildcardBlockKeepsAll(g: seq<Node>, nodes: seq<nat>, exprs: seq<AttributeExpr>)
    requires InArena(g, nodes)
    requires forall j :: 0 <= j < |exprs| ==>
      CleanAttributeValue(exprs[j].attributeName).Ok? && CleanAttributeValue(exprs[j].attributeValue) == Ok("*")
    ensures FilterByAttributes(g, nodes, exprs) == Ok(nodes)
  {
    if exprs != [] {
      forall k | 0 <= k < |nodes| ensures MatchesAll(g[nodes[k]], exprs) == Ok(true) {
        MatchesAllIsConjunction(g[nodes[k]], exprs);
        forall j | 0 <= j < |exprs| ensures ExprMatches(g[nodes[k]], exprs[j]) == Ok(true) {
          WildcardValueMatchesEveryNode(g[nodes[k]], exprs[j]);
        }
      }
      KeepMatchingAllAccepted(g, nodes, exprs);
    }
  }

  /** When every node of the list passes the block, the filter returns the list unchanged. */
  lemma {:induction false} KeepMatchingAllAccepted(g: seq<Node>, nodes: seq<nat>, exprs: seq<AttributeExpr>)
    requires InArena(g, nodes)
    requires forall k :: 0 <= k < |nodes| ==> MatchesAll(g[nodes[k]], exprs) == Ok(true)
    ensures KeepMatching(g, nodes, exprs) == Ok(nodes)
  {
    if nodes != [] {
      assert forall k :: 0 <= k < |nodes[1..]| ==> nodes[1..][k] == nodes[k + 1];
      KeepMatchingAllAccepted(g, nodes[1..], exprs);
      assert MatchesAll(g[nodes[0]], exprs) == Ok(true);
      assert nodes == [nodes[0]] + nodes[1..];
    }
  }

  /** A key other than `type`, `variant` and `version` is looked up in the custom attribute map only. */
  lemma CustomKeyReadsAttributeMap(node: Node, key: string, value: string)
    requires key != "type" && key != "variant" && key != "version"
    ensures KeyMatches(node, key, value) <==> key in node.attributes && node.attributes[key] == value
  {
  }

  /**
   * `type` and `variant` compare with the built-in field and, when that
   * fails, fall through to the custom attribute map under the same key.
   */
  lemma BuiltInKeysFallThrough(node: Node, value: string)
    ensures KeyMatches(node, "type", value) <==>
      node.nodeType == Some(value) || ("type" in node.attributes && node.attributes["type"] == value)
    ensures KeyMatches(node, "variant", value) <==>
      node.variant == Some(value) || ("variant" in node.attributes && node.attributes["variant"] == value)
  {
  }

  /**
   * `version` matches only by exact string equality with a present version
   * (or, falling through, with the custom map's `version` entry).
   */
  lemma VersionMatchesExactly(node: Node, value: string)
    ensures KeyMatches(node, "version", value) <==>
      node.version == Some(value) || ("version" in node.attributes && node.attributes["version"] == value)
  {
  }
}
