# Tree selector evaluation, modelled in Dafny

This project models the core of a small Java tree-query library. A caller
builds a tree of `TreeNode` objects (a name, an optional type, variant and
version, a string-to-string attribute map and an ordered child list) and
asks for the nodes that match a selector such as
`/Root/*{type=component}/GrandChild1`. The ANTLR-generated parser turns the
selector into a parse tree. A listener then walks that parse tree over the
node tree:

- `TreeSelectorListenerImpl` handles anchored paths. The root segment (a
  name, `*` or `~~`) seeds a working list. Each later segment replaces the
  list by matching children, or by all unprocessed descendants for `~~`.
  An optional attribute block `{k=v, ...}` filters the list after every
  segment. One visited set (`processedNodes`) guards every descendant
  collection of a selector.
- `DeepTreeSelectorListenerImpl` handles `**` selectors. It lists every
  node in pre-order, keeps those matching the first segment, and then runs
  plain child steps for the later segments.
- `TreeSelector.select` walks the parsed selector with a fresh anchored
  listener. It returns `[]` when anything throws.

The Java heap of `TreeNode` objects is an arena: a `seq<Node>` whose
children are indices into it. `TreeNode` overrides neither `equals` nor
`hashCode`, so Java identity becomes index equality. A well-formed arena
only needs every child index in range. Sharing and cycles are allowed,
because the collectors terminate on any finite graph through the visited
set. Termination is proved on the set of unvisited indices. Both recursive
collectors are specified by one function, `Traversal.Expand`.
When the arena is a forest (no cycle, and no node with two parents or
listed twice by one parent; a rank that falls along every child link
witnesses the first), `TreeOrder` proves that a
collection is the plain pre-order walk: a node, then each child's walk in
child order.

The parse tree is an input datatype (`ParseTree`) with one field per
context accessor the listeners call. `cleanAttributeValue` throws on a lone
`'` (`substring(1, 0)`). That exception is a `Result.Thrown` value, and it
propagates exactly as far as the Java exception does.

Each imperative Java method is a Dafny method on a class with the same
fields (`currentNodes`, `resultNodes`, `processedNodes`). Its `ensures`
ties the new field values to a specification function, and the lemmas
state what those functions compute.

Some behaviour of the code as written differs from what the repository's
tests expect. The model follows the code:

- `/~~` includes the root node. `collectNodesRecursively` emits the node it
  starts from.
- A `~~` step that follows a `~~` emits nothing (`/Root/~~/~~`, `/~~/~~`).
  The visited set is shared across the whole selector.
- A root `.` or `..` returns early, so the result is empty. A later `.`,
  `..` (and, in a deep selector, `~~`) is compared with the empty name.
- `version` is read through `getVersion()`, which `TreeNode.java` does not
  declare. The node record has an optional `version` field that starts
  unset.

## Model

| member | source | states |
|---|---|---|
| TreeNodes.NodeArena.NewNode | src/main/java/com/example/tree/TreeNode.java:18-20 | the new node has the given name, no type, variant or version, an empty attribute map and no children; it is appended, so every existing node is unchanged and the arena stays well formed |
| TreeNodes.NodeArena.NewTypedNode | src/main/java/com/example/tree/TreeNode.java:22-26 | as NewNode, with the given type and variant |
| TreeNodes.NodeArena.SetName | src/main/java/com/example/tree/TreeNode.java:32-34 | only the name of that node changes; children, attributes and every other node are untouched |
| TreeNodes.NodeArena.SetType | src/main/java/com/example/tree/TreeNode.java:40-42 | only the type of that node changes |
| TreeNodes.NodeArena.SetVariant | src/main/java/com/example/tree/TreeNode.java:48-50 | only the variant of that node changes |
| TreeNodes.NodeArena.AddAttribute | src/main/java/com/example/tree/TreeNode.java:52-54 | afterwards GetAttribute of the key is the value (a second put overwrites); every other key reads as before |
| TreeNodes.NodeArena.GetAttribute | src/main/java/com/example/tree/TreeNode.java:56-58 | the stored value when the key is present, None (null) exactly when it is absent |
| TreeNodes.NodeArena.AddChild | src/main/java/com/example/tree/TreeNode.java:64-66 | the child is appended at the end; earlier children keep their positions; nothing else changes |
| TreeNodes.NodeArena.GetChildren | src/main/java/com/example/tree/TreeNode.java:68-70 | the children in order, each a node of the arena |
| Traversal.Expand | src/main/java/com/example/tree/TreeSelectorListenerImpl.java:122-151 | a recursive collection (collectNodesRecursively and collectDescendantsRecursively; the deep listener's copy at DeepTreeSelectorListenerImpl.java lines 94-106 is the same) terminates on every finite arena, cyclic or not, never removes a node from the processed set and emits only nodes of the arena; which nodes it emits is stated by ExpandEmitsFreshNodes and ExpandClosesOverChildren |
| Traversal.ExpandEmitsFreshNodes | src/main/java/com/example/tree/TreeSelectorListenerImpl.java:122-134 | a recursive collection emits only unprocessed nodes, each once, and the processed set grows by exactly the emitted nodes |
| Traversal.ExpandClosesOverChildren | src/main/java/com/example/tree/TreeSelectorListenerImpl.java:142-151 | after a collection, every started node and every child of an emitted node is processed |
| Traversal.CollectAllListsReachableNodesOnce | src/main/java/com/example/tree/TreeSelectorListenerImpl.java:122-134 | collecting from the root with an empty processed set lists the root first, then every node reachable from it, each exactly once, and nothing else |
| Traversal.CollectDescendantsListsDescendantsOnce | src/main/java/com/example/tree/TreeSelectorListenerImpl.java:142-151 | collecting descendants with an empty processed set lists every node strictly below the start node exactly once, and nothing else |
| TreeOrder.PreOrderDistinct | src/main/java/com/example/tree/TreeSelectorListenerImpl.java:122-134 | on a tree (acyclic, no node with two parents or listed twice), the pre-order walk from a node lists no node twice |
| TreeOrder.ExpandFollowsPreOrder | src/main/java/com/example/tree/TreeSelectorListenerImpl.java:122-151 | a collection whose pre-order walks list no node twice and meet no processed node skips nothing and returns those walks |
| TreeOrder.CollectAllIsPreOrder | src/main/java/com/example/tree/TreeSelectorListenerImpl.java:122-134 | on a tree, collectNodesRecursively from the root with nothing processed returns the pre-order walk: a node, then each child's walk in child order |
| TreeOrder.CollectDescendantsIsPreOrder | src/main/java/com/example/tree/TreeSelectorListenerImpl.java:142-151 | on a tree, collectDescendantsRecursively returns the pre-order walk below the node, in child order |
| Traversal.NameFilter | src/main/java/com/example/tree/DeepTreeSelectorListenerImpl.java:36-41 | the name test returns nodes of the arena and never more nodes than it was given |
| Traversal.MatchingChildren | src/main/java/com/example/tree/TreeSelectorListenerImpl.java:80-95 | the child step (also DeepTreeSelectorListenerImpl.java lines 61-71) returns nodes of the arena; which ones is stated by MatchingChildrenAreSelectedChildren |
| Traversal.NameFilterIsSubsequence | src/main/java/com/example/tree/DeepTreeSelectorListenerImpl.java:36-41 | the name test keeps its input's order |
| Traversal.NameFilterKeepsSelected | src/main/java/com/example/tree/DeepTreeSelectorListenerImpl.java:36-41 | the name test keeps every node with the name (every node for `*`) as often as the input holds it, and no other node |
| Traversal.NameFilterWildcardKeepsAll | src/main/java/com/example/tree/TreeSelectorListenerImpl.java:83-85 | with `*` the whole child list is taken |
| Traversal.MatchingChildrenAreSelectedChildren | src/main/java/com/example/tree/TreeSelectorListenerImpl.java:80-95 | a child step returns exactly the children of current nodes that pass the name test |
| Traversal.MatchingChildrenAppend | src/main/java/com/example/tree/TreeSelectorListenerImpl.java:82-94 | a child step over two lists is the concatenation of the two steps, so the output follows the current list in order and repeats are kept |
| AttributeMatching.CleanAttributeValue | src/main/java/com/example/tree/TreeSelectorListenerImpl.java:235-240 | throws exactly on a lone quote; otherwise returns the text itself or the text it quotes |
| AttributeMatching.CleanAttributeValueUnquotes | src/main/java/com/example/tree/TreeSelectorListenerImpl.java:235-240 | cleaning a quoted text returns the text, whatever quotes it contains |
| AttributeMatching.CleanAttributeValueKeepsUnquoted | src/main/java/com/example/tree/TreeSelectorListenerImpl.java:235-240 | a text that does not both start and end with a quote comes back unchanged |
| AttributeMatching.CompareVersions | src/main/java/com/example/tree/TreeSelectorListenerImpl.java:220-227 | true exactly when the node has a version equal to the selector's |
| AttributeMatching.KeyMatches | src/main/java/com/example/tree/TreeSelectorListenerImpl.java:187-195 | an attribute map entry equal to the value always matches; a key other than `type`, `variant` and `version` matches exactly through that entry; `version` also matches an equal node version |
| AttributeMatching.ExprMatches | src/main/java/com/example/tree/TreeSelectorListenerImpl.java:176-182 | one expression throws exactly when its key or value is a lone quote; a value `*` or `'*'` matches whenever nothing throws |
| AttributeMatching.MatchesAll | src/main/java/com/example/tree/TreeSelectorListenerImpl.java:175-202 | an empty block accepts; a first expression that does not match rejects at once, whatever follows (`break`); a throw needs a lone quote in the block |
| AttributeMatching.KeepMatching | src/main/java/com/example/tree/TreeSelectorListenerImpl.java:171-208 | the outer loop never returns more nodes than it was given; with no expression it keeps the list; a throw needs a non-empty list and a lone quote in the block |
| AttributeMatching.FilterByAttributes | src/main/java/com/example/tree/TreeSelectorListenerImpl.java:162-211 | an empty block returns the input list itself; a result holds only input nodes, all in the arena |
| AttributeMatching.ApplyAttributeSelector | src/main/java/com/example/tree/TreeSelectorListenerImpl.java:97-100 | without a block the list is kept; a result holds only nodes of the list |
| AttributeMatching.KeepMatchingIsSubsequence | src/main/java/com/example/tree/TreeSelectorListenerImpl.java:171-208 | the filter's result keeps the order of its input |
| AttributeMatching.KeepMatchingKeepsSelected | src/main/java/com/example/tree/TreeSelectorListenerImpl.java:171-208 | the filter keeps every node that matches all expressions as often as the input holds it, and no other node |
| AttributeMatching.FilterByAttributesSelects | src/main/java/com/example/tree/TreeSelectorListenerImpl.java:162-211 | filterNodesByAttributes returns an order-preserving subsequence of its input holding exactly the nodes that match all expressions, with their multiplicity |
| AttributeMatching.ExprMatchesThrowsOnLoneQuote | src/main/java/com/example/tree/TreeSelectorListenerImpl.java:176-177 | one expression throws exactly when its key or its value is a lone quote |
| AttributeMatching.MatchesAllIsConjunction | src/main/java/com/example/tree/TreeSelectorListenerImpl.java:172-202 | a node passes a block exactly when it passes every expression (logical AND) |
| AttributeMatching.MatchesAllThrows | src/main/java/com/example/tree/TreeSelectorListenerImpl.java:175-202 | a block throws for a node exactly when a lone quote is reached before any expression fails (the `break` stops cleaning) |
| AttributeMatching.KeepMatchingThrows | src/main/java/com/example/tree/TreeSelectorListenerImpl.java:171-208 | the filter throws exactly when the block throws for some node of the list |
| AttributeMatching.FilterThrowsOnlyOnLoneQuote | src/main/java/com/example/tree/TreeSelectorListenerImpl.java:162-211 | a block without lone-quote keys or values never throws; an empty list never throws |
| AttributeMatching.WildcardValueMatchesEveryNode | src/main/java/com/example/tree/TreeSelectorListenerImpl.java:179-182 | an expression whose cleaned value is `*` matches every node, also one lacking the key |
| AttributeMatching.WildcardBlockKeepsAll | src/main/java/com/example/tree/TreeSelectorListenerImpl.java:171-208 | a block of `*`-valued expressions returns the list unchanged |
| AttributeMatching.KeepMatchingAllAccepted | src/main/java/com/example/tree/TreeSelectorListenerImpl.java:171-208 | when every node of the list passes the block (whatever other nodes of the arena do), the filter returns the list unchanged |
| AttributeMatching.CustomKeyReadsAttributeMap | src/main/java/com/example/tree/TreeSelectorListenerImpl.java:193-195 | any key other than type, variant and version matches exactly when the attribute map holds the value under it |
| AttributeMatching.BuiltInKeysFallThrough | src/main/java/com/example/tree/TreeSelectorListenerImpl.java:187-195 | `type` and `variant` match the built-in field or, when that fails, the attribute map entry of the same key |
| AttributeMatching.VersionMatchesExactly | src/main/java/com/example/tree/TreeSelectorListenerImpl.java:191-195 | `version` matches only by exact equality with a present version, or through the map entry `version` |
| SelectorListener.SeedRoot | src/main/java/com/example/tree/TreeSelectorListenerImpl.java:29-50 | the early return happens exactly for a root segment that is neither a name, `*` nor `~~`; a seed holds arena nodes; a name or `*` seeds at most the root and processes nothing |
| SelectorListener.EnterSelectorSpec | src/main/java/com/example/tree/TreeSelectorListenerImpl.java:22-61 | the current list and the result hold arena nodes; with later segments the result is empty, without them it is the filtered seed; a throw needs a lone quote in the root's block |
| SelectorListener.DescendantsOfAll | src/main/java/com/example/tree/TreeSelectorListenerImpl.java:73-79 | a `~~` step only adds to the processed set and yields nodes of the arena; which nodes it yields is stated by ListenerProperties.PlaceholderStepSelectsUnprocessedDescendants |
| SelectorListener.SegmentStep | src/main/java/com/example/tree/TreeSelectorListenerImpl.java:63-95 | a step yields arena nodes and never shrinks the processed set; only a `~~` step changes it |
| SelectorListener.EnterNodeSelectorSpec | src/main/java/com/example/tree/TreeSelectorListenerImpl.java:63-114 | the new list holds arena nodes; the processed set only grows; a segment before the last leaves the result alone and the last appends its list; a throw needs a lone quote in that segment's block |
| SelectorListener.WalkSegments | src/main/java/com/example/tree/TreeSelector.java:38-39 | walking the later segments keeps every list in the arena and never shrinks the processed set; a throw needs a lone quote in a block of a segment still to come |
| SelectorListener.Walk | src/main/java/com/example/tree/TreeSelector.java:37-39 | the state after the whole walk holds arena nodes in its current list and its result |
| SelectorListener.Evaluate | src/main/java/com/example/tree/TreeSelector.java:37-42 | a returned result holds only nodes of the arena |
| SelectorListener.TreeSelectorListener.constructor | src/main/java/com/example/tree/TreeSelectorListenerImpl.java:18-20 | the two lists (current and result) and the processed set start empty |
| SelectorListener.TreeSelectorListener.EnterSelector | src/main/java/com/example/tree/TreeSelectorListenerImpl.java:22-61 | clears the fields, seeds, filters and (without later segments) fills the result exactly as EnterSelectorSpec; fails exactly when the spec throws |
| SelectorListener.TreeSelectorListener.EnterNodeSelector | src/main/java/com/example/tree/TreeSelectorListenerImpl.java:63-114 | the new current list, result and processed set are those of EnterNodeSelectorSpec; fails exactly when it throws |
| SelectorListener.TreeSelectorListener.DescendantsOfCurrent | src/main/java/com/example/tree/TreeSelectorListenerImpl.java:73-79 | the loop returns DescendantsOfAll of the current list and leaves its processed set |
| SelectorListener.TreeSelectorListener.ChildrenOfCurrent | src/main/java/com/example/tree/TreeSelectorListenerImpl.java:80-95 | the nested loops return the child step MatchingChildren of the current list |
| SelectorListener.TreeSelectorListener.CollectNodesRecursively | src/main/java/com/example/tree/TreeSelectorListenerImpl.java:122-134 | appends Expand of the node to the accumulator and leaves Expand's processed set |
| SelectorListener.TreeSelectorListener.CollectDescendantsRecursively | src/main/java/com/example/tree/TreeSelectorListenerImpl.java:142-151 | appends Expand of the node's children and leaves Expand's processed set |
| SelectorListener.TreeSelectorListener.FilterNodesByAttributes | src/main/java/com/example/tree/TreeSelectorListenerImpl.java:162-211 | returns FilterByAttributes, including its exception |
| SelectorListener.TreeSelectorListener.MatchesAllAttributes | src/main/java/com/example/tree/TreeSelectorListenerImpl.java:172-202 | the inner loop with `continue` and `break` returns MatchesAll, including its exception |
| ListenerProperties.RootNameSelectsRoot | src/main/java/com/example/tree/TreeSelectorListenerImpl.java:44-50 | a named root segment selects the root exactly when the names are equal, otherwise nothing |
| ListenerProperties.RootWildcardSelectsRoot | src/main/java/com/example/tree/TreeSelectorListenerImpl.java:36-38 | `/*` selects the root alone |
| ListenerProperties.RootPlaceholderListsEveryNodeOnce | src/main/java/com/example/tree/TreeSelectorListenerImpl.java:39-43 | `/~~` selects the root first and then every reachable node, each exactly once |
| ListenerProperties.EmptyListStaysEmpty | src/main/java/com/example/tree/TreeSelectorListenerImpl.java:73-113 | later segments over an empty list never throw, keep it empty and add nothing to the result |
| ListenerProperties.UnsupportedRootSelectsNothing | src/main/java/com/example/tree/TreeSelectorListenerImpl.java:29-31 | a root segment that is neither a name, `*` nor `~~` gives an empty result, whatever follows |
| ListenerProperties.WalkAppendsLastList | src/main/java/com/example/tree/TreeSelectorListenerImpl.java:104-113 | over the later segments the result grows by exactly the list of the last segment |
| ListenerProperties.ResultIsLastList | src/main/java/com/example/tree/TreeSelectorListenerImpl.java:57-60 | the result is cleared on entry and ends as the last segment's list; with no later segment it is the filtered seed |
| ListenerProperties.ChildStepSelectsChildren | src/main/java/com/example/tree/TreeSelectorListenerImpl.java:80-102 | a non-`~~` step keeps, in order and as often as the child step lists them, exactly the children of current nodes with the segment's name (all for `*`, the empty name for `.`/`..`) that pass the block; the processed set is unchanged |
| ListenerProperties.PlaceholderStepEmitsFreshNodes | src/main/java/com/example/tree/TreeSelectorListenerImpl.java:142-151 | a `~~` step emits each node at most once, never a node processed before, grows the processed set by exactly what it emits, and processes every child of what it emits |
| ListenerProperties.PlaceholderStepEmitsDescendants | src/main/java/com/example/tree/TreeSelectorListenerImpl.java:73-79 | every node a `~~` step emits lies strictly below some current node |
| ListenerProperties.PlaceholderStepProcessesChildren | src/main/java/com/example/tree/TreeSelectorListenerImpl.java:73-79 | after a `~~` step every child of every current node is in the processed set |
| ListenerProperties.PlaceholderStepSelectsUnprocessedDescendants | src/main/java/com/example/tree/TreeSelectorListenerImpl.java:73-79 | from a processed set closed under child links, a `~~` step emits exactly the nodes strictly below some current node that were not yet processed, and the new processed set is again closed |
| ListenerProperties.EnterSelectorClosesProcessed | src/main/java/com/example/tree/TreeSelectorListenerImpl.java:22-61 | enterSelector leaves a processed set closed under child links (empty, or everything reachable from the root) |
| ListenerProperties.WalkKeepsProcessedClosed | src/main/java/com/example/tree/TreeSelectorListenerImpl.java:63-114 | every enterNodeSelector keeps the processed set closed under child links, so each `~~` step of a walk emits exactly the unprocessed descendants of its current nodes |
| ListenerProperties.RootThenPlaceholderListsDescendantsOnce | src/main/java/com/example/tree/TreeSelectorListenerImpl.java:73-79 | `/Root/~~` with the root's own name selects every node strictly below the root, each exactly once |
| ListenerProperties.RootDescendantsAreEmitted | src/main/java/com/example/tree/TreeSelectorListenerImpl.java:73-79 | a `~~` step from the root alone with nothing processed emits every node strictly below it, each once |
| ListenerProperties.ProcessedOnlyGrows | src/main/java/com/example/tree/TreeSelectorListenerImpl.java:24-26 | the processed set is cleared only on entering a selector and never shrinks while the segments are walked |
| ListenerProperties.ExpandOfProcessed | src/main/java/com/example/tree/TreeSelectorListenerImpl.java:143-145 | a collection that meets only processed nodes emits nothing |
| ListenerProperties.PlaceholderOverProcessedYieldsNothing | src/main/java/com/example/tree/TreeSelectorListenerImpl.java:142-151 | a `~~` step over nodes whose children are all processed emits nothing |
| ListenerProperties.WalkSegmentsStep | src/main/java/com/example/tree/TreeSelectorListenerImpl.java:104-113 | one walk step is segment `i`'s callback followed by the rest of the walk, or its exception; a step before the last leaves the result alone |
| ListenerProperties.SecondPlaceholderStepEmitsNothing | src/main/java/com/example/tree/TreeSelectorListenerImpl.java:73-79 | at any position, a `~~` step right after a `~~` step succeeds with an empty list and leaves the result as it was |
| ListenerProperties.WalkThroughPlaceholderPairIsEmpty | src/main/java/com/example/tree/TreeSelectorListenerImpl.java:63-114 | a walk reaching a pair of `~~` segments with an empty result ends with an empty list and an empty result |
| ListenerProperties.WalkBeforePlaceholderPairIsEmpty | src/main/java/com/example/tree/TreeSelectorListenerImpl.java:63-114 | the same for a walk that starts before the pair |
| ListenerProperties.PlaceholderPairEmptiesWalk | src/main/java/com/example/tree/TreeSelectorListenerImpl.java:73-113 | a walk starting at a pair of `~~` segments ends with an empty list and adds nothing to the result |
| ListenerProperties.PlaceholderAfterPlaceholderYieldsNothing | src/main/java/com/example/tree/TreeSelectorListenerImpl.java:73-79 | two `~~` segments in a row at any position after the root segment, as in `/Root/~~/~~` or `/Root/Child/~~/~~/Leaf`, select nothing |
| ListenerProperties.RootPlaceholderThenPlaceholderYieldsNothing | src/main/java/com/example/tree/TreeSelectorListenerImpl.java:39-43 | a root `~~` followed by a `~~` segment, whatever comes after (`/~~/~~`, `/~~/~~/Leaf`), selects nothing |
| ListenerProperties.WalkThrowsOnlyOnLoneQuote | src/main/java/com/example/tree/TreeSelectorListenerImpl.java:97-100 | a walk over the later segments throws only if one of them has a lone-quote key or value |
| ListenerProperties.EvaluateThrowsOnlyOnLoneQuote | src/main/java/com/example/tree/TreeSelectorListenerImpl.java:53-55 | evaluating a selector throws only if some attribute block, the root's included, has a lone-quote key or value |
| ListenerProperties.RootPlaceholderListsPreOrder | src/main/java/com/example/tree/TreeSelectorListenerImpl.java:39-43 | on a tree, `/~~` selects the pre-order walk from the root |
| ListenerProperties.RootThenPlaceholderListsPreOrder | src/main/java/com/example/tree/TreeSelectorListenerImpl.java:73-79 | on a tree, `/Root/~~` with the root's own name selects the pre-order walk below the root |
| DeepSelectorListener.DeepStep | src/main/java/com/example/tree/DeepTreeSelectorListenerImpl.java:61-77 | a later segment's list consists of arena nodes |
| DeepSelectorListener.DeepFirst | src/main/java/com/example/tree/DeepTreeSelectorListenerImpl.java:27-47 | the first segment's list consists of arena nodes |
| DeepSelectorListener.DeepSteps | src/main/java/com/example/tree/DeepTreeSelectorListenerImpl.java:58-85 | the list after the later segments holds arena nodes; a throw needs a lone quote in one of their blocks |
| DeepSelectorListener.DeepEvaluate | src/main/java/com/example/tree/DeepTreeSelectorListenerImpl.java:22-86 | a returned result holds arena nodes; a throw needs a lone quote in the first segment's block or in a later one |
| DeepSelectorListener.DeepTreeSelectorListener.constructor | src/main/java/com/example/tree/DeepTreeSelectorListenerImpl.java:18-20 | the result and the processed set start empty |
| DeepSelectorListener.DeepTreeSelectorListener.EnterDeepSelector | src/main/java/com/example/tree/DeepTreeSelectorListenerImpl.java:22-86 | the result is DeepEvaluate and the processed set holds every reachable node; fails exactly when DeepEvaluate throws |
| DeepSelectorListener.DeepTreeSelectorListener.FollowSegments | src/main/java/com/example/tree/DeepTreeSelectorListenerImpl.java:55-85 | appends DeepSteps of the first segment's list to the result; fails exactly when it throws |
| DeepSelectorListener.DeepTreeSelectorListener.KeepNamed | src/main/java/com/example/tree/DeepTreeSelectorListenerImpl.java:36-41 | the loop returns the name test NameFilter of its list |
| DeepSelectorListener.DeepTreeSelectorListener.ApplyBlock | src/main/java/com/example/tree/DeepTreeSelectorListenerImpl.java:43-47 | the delegated filter returns ApplyAttributeSelector, including its exception |
| DeepSelectorListener.DeepTreeSelectorListener.NextNodes | src/main/java/com/example/tree/DeepTreeSelectorListenerImpl.java:61-71 | the nested loops return the child step MatchingChildren |
| DeepSelectorListener.DeepTreeSelectorListener.CollectNodesRecursively | src/main/java/com/example/tree/DeepTreeSelectorListenerImpl.java:94-106 | appends Expand of the node to the accumulator and leaves Expand's processed set |
| DeepSelectorListener.DeepWildcardListsEveryNodeOnce | src/main/java/com/example/tree/DeepTreeSelectorListenerImpl.java:27-41 | `**/*` selects the root first and every reachable node, each exactly once |
| DeepSelectorListener.DeepWildcardListsPreOrder | src/main/java/com/example/tree/DeepTreeSelectorListenerImpl.java:27-41 | on a tree, `**/*` selects the pre-order walk from the root |
| DeepSelectorListener.DeepNameListsPreOrder | src/main/java/com/example/tree/DeepTreeSelectorListenerImpl.java:27-41 | on a tree, `**/Name` selects the nodes named Name in the order of the pre-order walk |
| DeepSelectorListener.DeepFirstSegmentSelects | src/main/java/com/example/tree/DeepTreeSelectorListenerImpl.java:31-47 | the first segment keeps, in pre-order and each once, exactly the reachable nodes with its name (all for `*`) that pass its block; without a block it never throws |
| DeepSelectorListener.DeepStepSelectsChildren | src/main/java/com/example/tree/DeepTreeSelectorListenerImpl.java:58-79 | a later segment keeps, in order and as often as the child step lists them, exactly the children of the previous list's nodes with its name that pass its block |
| DeepSelectorListener.DeepOtherSegmentsMatchEmptyName | src/main/java/com/example/tree/DeepTreeSelectorListenerImpl.java:62-63 | a later `~~`, `.` or `..` behaves as a segment naming the empty name |
| Facade.TreeSelector.constructor | src/main/java/com/example/tree/TreeSelector.java:16-18 | keeps the tree and its root |
| Facade.SelectSpec | src/main/java/com/example/tree/TreeSelector.java:26-48 | select always returns nodes of the tree, and `[]` when parsing failed |
| Facade.TreeSelector.Select | src/main/java/com/example/tree/TreeSelector.java:26-48 | walks enterSelector and every enterNodeSelector in order and returns SelectSpec: the listener's result, or `[]` when parsing or the walk threw |
| Facade.SelectSwallowsExceptions | src/main/java/com/example/tree/TreeSelector.java:43-47 | for every selector: a failed parse gives `[]`; every exception of the walk gives `[]` and can only come from a lone `'` in some attribute block; otherwise select returns the walk's result |
| Facade.LoneQuoteKeyMakesSelectEmpty | src/main/java/com/example/tree/TreeSelectorListenerImpl.java:53-55 | a root `*` whose block starts with a lone-quote key does throw, and select returns `[]` |
| Facade.SelectReturnsLastList | src/main/java/com/example/tree/TreeSelector.java:41-42 | without an exception, select returns the last segment's list |

## Left out

- Lexing, parsing and the grammar are generated code that is not part of this model. The parse tree is an input, and the parser's outcome is `Option<Selector>`, with `None` when it threw.
- The `ParseTreeWalker` callback dispatch is a loop over the segments. The `indexOf(ctx)` lookup in enterNodeSelector is the segment's position, passed explicitly.
- TreeSelector's `System.err` logging and stack trace, `TreeNode.toString`, `SelectorDemo` and `TreeBuilder` print or build sample data only.
- The plain getters `getName`, `getType`, `getVariant` and `getAttributes` are reads of the node record.
- `getAttributes` and `getChildren` hand out the live Java collections, which a caller could mutate. The model returns values, so this aliasing is not captured.
- Null is not modelled for names, attribute keys and values, a child passed to `addChild`, or the root node. The NullPointerExceptions these would cause are left out. Type, variant and version may be absent (`Option`).
- Exceptions other than the lone-quote `StringIndexOutOfBoundsException` are not modelled. This includes a failing cast of the parent context in enterNodeSelector.
- `setVersion` and a four-argument constructor do not exist in `TreeNode.java`, so a node's version cannot be set through the arena methods.
- TreeSelector parses only `selector()`. The deep listener is therefore modelled on its own, outside `select`.
- `|` alternation, `.`/`..` navigation and parent links appear only in the tests. The code shown does not implement them, and they are not properties of this model.
- SelectorListener.TreeSelectorListener.EnterSelector: on an exception only the listener's well-formedness is stated, not the partly updated fields.
- SelectorListener.TreeSelectorListener.EnterNodeSelector: on an exception only the listener's well-formedness is stated, not the partly updated fields.
- DeepSelectorListener.DeepTreeSelectorListener.EnterDeepSelector: on an exception the partly built result is not stated.
- Traversal.CollectAllListsReachableNodesOnce: the order after the root is stated as the pre-order walk only for tree-shaped arenas (TreeOrder.CollectAllIsPreOrder). On an arena with shared nodes or cycles it is Expand's depth-first order, which skips nodes already visited, and no separate order is stated.
- ListenerProperties.RootPlaceholderListsEveryNodeOnce: the same limit on the order; the tree case is ListenerProperties.RootPlaceholderListsPreOrder.
- DeepSelectorListener.DeepWildcardListsEveryNodeOnce: the same limit on the order; the tree case is DeepSelectorListener.DeepWildcardListsPreOrder.
