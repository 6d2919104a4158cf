/**
 * The tree the selectors query.  Every `TreeNode` object is one record of an
 * arena (a sequence of nodes) and a reference to it is its index, so Java's
 * identity semantics (TreeNode overrides neither `equals` nor `hashCode`)
 * become index equality.
 */
module TreeNodes {
  import opened Wrappers

  /**
   * The fields of one TreeNode.  `nodeType`, `variant` and `version` may be
   * null; `children` lists arena indices in insertion order.
   */
  datatype Node = Node(
    name: string,
    nodeType: Option<string>,
    variant: Option<string>,
    version: Option<string>,
    attributes: map<string, string>,
    children: seq<nat>)

  /** Every child reference designates a node of the arena. */
  ghost predicate WellFormed(g: seq<Node>) {
    forall i, j :: 0 <= i < |g| && 0 <= j < |g[i].children| ==> g[i].children[j] < |g|
  }

  /** All the TreeNode objects of a program, with their fields. */
  class NodeArena {
    var nodes: seq<Node>

    ghost predicate Valid()
      reads this
    {
      WellFormed(nodes)
    }

    constructor ()
      ensures Valid() && nodes == []
    {
      nodes := [];
    }

    /** `new TreeNode(name)`: no type, variant or version, no attributes, no children. */
    method NewNode(name: string) returns (id: nat)
      requires Valid()
      modifies this
      ensures Valid()
      ensures id == |old(nodes)|
      ensures nodes == old(nodes) + [Node(name, None, None, None, map[], [])]
    {
      id := |nodes|;
      nodes := nodes + [Node(name, None, None, None, map[], [])];
    }

    /** `new TreeNode(name, type, variant)`: no version, no attributes, no children. */
    method NewTypedNode(name: string, nodeType: Option<string>, variant: Option<string>) returns (id: nat)
      requires Valid()
      modifies this
      ensures Valid()
      ensures id == |old(nodes)|
      ensures nodes == old(nodes) + [Node(name, nodeType, variant, None, map[], [])]
    {
      id := |nodes|;
      nodes := nodes + [Node(name, nodeType, variant, None, map[], [])];
    }

    /** `setName`: only the name of node `id` changes. */
    method SetName(id: nat, name: string)
      requires Valid() && id < |nodes|
      modifies this
      ensures Valid()
      ensures nodes == old(nodes)[id := old(nodes)[id].(name := name)]
    {
      nodes := nodes[id := nodes[id].(name := name)];
    }

    /** `setType`: only the type of node `id` changes. */
    method SetType(id: nat, nodeType: Option<string>)
      requires Valid() && id < |nodes|
      modifies this
      ensures Valid()
      ensures nodes == old(nodes)[id := old(nodes)[id].(nodeType := nodeType)]
    {
      nodes := nodes[id := nodes[id].(nodeType := nodeType)];
    }

    /** `setVariant`: only the variant of node `id` changes. */
    method SetVariant(id: nat, variant: Option<string>)
      requires Valid() && id < |nodes|
      modifies this
      ensures Valid()
      ensures nodes == old(nodes)[id := old(nodes)[id].(variant := variant)]
    {
      nodes := nodes[id := nodes[id].(variant := variant)];
    }

    /**
     * `addAttribute` (a HashMap `put`): `key` now maps to `value`, a previous
     * value under `key` is overwritten, every other key and every other field
     * is unchanged.
     */
    method AddAttribute(id: nat, key: string, value: string)
      requires Valid() && id < |nodes|
      modifies this
      ensures Valid()
      ensures nodes == old(nodes)[id := old(nodes)[id].(attributes := old(nodes)[id].attributes[key := value])]
      ensures GetAttribute(id, key) == Some(value)
      ensures forall k :: k != key ==> GetAttribute(id, k) == old(GetAttribute(id, k))
    {
      nodes := nodes[id := nodes[id].(attributes := nodes[id].attributes[key := value])];
    }

    /** `getAttribute`: the value stored under `key`, or null when there is none. */
    function GetAttribute(id: nat, key: string): (r: Option<string>)
      reads this
      requires id < |nodes|
      ensures r.Some? <==> key in nodes[id].attributes
      ensures r.Some? ==> r.value == nodes[id].attributes[key]
    {
      if key in nodes[id].attributes then Some(nodes[id].attributes[key]) else None
    }

    /**
     * `addChild`: `child` is appended to the children of `id`; earlier
     * children keep their positions, and nothing else changes.
     */
    method AddChild(id: nat, child: nat)
      requires Valid() && id < |nodes| && child < |nodes|
      modifies this
      ensures Valid()
      ensures nodes == old(nodes)[id := old(nodes)[id].(children := old(nodes)[id].children + [child])]
      ensures |nodes[id].children| == |old(nodes)[id].children| + 1
      ensures nodes[id].children[|nodes[id].children| - 1] == child
      ensures forall k :: 0 <= k < |old(nodes)[id].children| ==> nodes[id].children[k] == old(nodes)[id].children[k]
    {
      nodes := nodes[id := nodes[id].(children := nodes[id].children + [child])];
    }

    /** `getChildren`: the children of `id`, each of them a node of the arena. */
    function GetChildren(id: nat): (r: seq<nat>)
      reads this
      requires Valid() && id < |nodes|
      ensures |r| == |nodes[id].children|
      ensures forall k :: 0 <= k < |r| ==> r[k] == nodes[id].children[k] && r[k] < |nodes|
    {
      nodes[id].children
    }
  }
}
