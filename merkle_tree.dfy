/** MerkleNode and MerkleTree as the code has them: node objects whose fields
    are set in place, linked to their children, built level by level. Each
    node carries, as ghost state, the tree value it stands for and the set of
    nodes below it; Valid() is the parent-hash invariant, held by every node
    below. */
module MerkleTrees {
  import opened Hashing
  import opened MerkleSpec

  class MerkleNode {
    var value: string
    var hash: string
    var left: MerkleNode?
    var right: MerkleNode?

    /** The tree this node is the root of. */
    ghost var model: Tree
    /** This node and every node below it. */
    ghost var Repr: set<MerkleNode>

    /** The fields of this one node agree with its model: a leaf has no
        children and hashes its value; an internal node has both children,
        standing for the two subtrees, holds their values concatenated and
        hashes their hashes concatenated, left first. The right child may be
        the left one itself, when an odd node was paired with itself. Repr is
        exactly this node and the nodes below its children. */
    ghost predicate Linked(h: Hasher)
      reads this, left, right
    {
      match model
      case Leaf(v) =>
        value == v && left == null && right == null && hash == h(value) &&
        Repr == {this}
      case Node(l, r) =>
        left != null && right != null &&
        left.model == l && right.model == r &&
        value == left.value + right.value &&
        hash == h(left.hash + right.hash) &&
        Repr == {this} + left.Repr + right.Repr
    }

    /** The children of this node, if any, are among `nodes`. */
    ghost predicate ChildrenIn(nodes: set<MerkleNode>)
      reads this
    {
      (left == null || left in nodes) && (right == null || right in nodes)
    }

    /** Every node below this one is linked to its children as its model says. */
    ghost predicate Valid(h: Hasher)
      reads this, Repr
    {
      this in Repr && Closed(h, Repr)
    }

    /** MerkleNode(value): a leaf whose hash is the hash of its value. */
    constructor (h: Hasher, value: string)
      ensures Valid(h) && fresh(Repr)
      ensures this.value == value && hash == h(value)
      ensures left == null && right == null && model == Leaf(value)
    {
      this.value := value;
      hash := h(value);
      left := null;
      right := null;
      model := Leaf(value);
      Repr := {this};
      new;
      assert Linked(h);
    }
  }

  /** Every node of `nodes` has its children in `nodes` and is linked to
      them as its model says. */
  ghost predicate Closed(h: Hasher, nodes: set<MerkleNode>)
    reads nodes
  {
    forall n {:trigger n.Linked(h)} :: n in nodes ==> n.ChildrenIn(nodes) && n.Linked(h)
  }

  /** The models of a level of nodes, in order. */
  ghost function Models(nodes: seq<MerkleNode>): (ms: seq<Tree>)
    reads set n | n in nodes
    ensures |ms| == |nodes|
    ensures forall i :: 0 <= i < |nodes| ==> ms[i] == nodes[i].model
  {
    if nodes == [] then [] else [nodes[0].model] + Models(nodes[1..])
  }

  /** A valid node holds the value and the hash of the tree it stands for. */
  lemma {:induction false} ValidNode(h: Hasher, node: MerkleNode)
    requires node.Valid(h)
    ensures node.hash == TreeHash(h, node.model)
    ensures node.value == TreeValue(node.model)
  {
    LinkedNode(h, node.Repr, node);
  }

  lemma {:induction false} LinkedNode(h: Hasher, nodes: set<MerkleNode>, node: MerkleNode)
    requires node in nodes
    requires Closed(h, nodes)
    ensures node.hash == TreeHash(h, node.model)
    ensures node.value == TreeValue(node.model)
    decreases node.model
  {
    assert node.Linked(h);
    if node.model.Node? {
      LinkedNode(h, nodes, node.left);
      LinkedNode(h, nodes, node.right);
    }
  }

  /** When every parent's nodes lie in `above` and each parent holds the nodes
      below its two children, so does every node of the level: node i is a
      child of parent i / 2. */
  lemma {:induction false} BelowParents(nodes: seq<MerkleNode>, parentNodes: seq<MerkleNode>, above: set<MerkleNode>)
    requires |parentNodes| == (|nodes| + 1) / 2
    requires forall k :: 0 <= k < |parentNodes| ==>
      parentNodes[k].left == nodes[2 * k] &&
      parentNodes[k].right == (if 2 * k + 1 < |nodes| then nodes[2 * k + 1] else nodes[2 * k])
    requires forall k :: 0 <= k < |parentNodes| ==>
      parentNodes[k].left.Repr <= parentNodes[k].Repr && parentNodes[k].right.Repr <= parentNodes[k].Repr
    requires forall k :: 0 <= k < |parentNodes| ==> parentNodes[k].Repr <= above
    ensures forall i :: 0 <= i < |nodes| ==> nodes[i].Repr <= above
  {
    forall i | 0 <= i < |nodes|
      ensures nodes[i].Repr <= above
    {
      var k := i / 2;
      assert i == 2 * k || i == 2 * k + 1;
      assert nodes[i] == parentNodes[k].left || nodes[i] == parentNodes[k].right;
    }
  }

  class MerkleTree {
    var leafNodes: seq<MerkleNode>
    var root: MerkleNode

    /** MerkleTree(leaf_values): one leaf per value, then build_tree on them.
        The code recurses forever on an empty list, hence the requires. */
    constructor (h: Hasher, leafValues: seq<string>)
      requires |leafValues| > 0
      ensures |leafNodes| == |leafValues|
      ensures forall i :: 0 <= i < |leafNodes| ==>
        leafNodes[i].Valid(h) && leafNodes[i].model == Leaf(leafValues[i]) &&
        leafNodes[i].hash == h(leafValues[i])
      ensures root.Valid(h) && root.model == Build(Leaves(leafValues))
      ensures root.hash == MerkleRoot(h, LeafHashes(h, leafValues))
      ensures forall i :: 0 <= i < |leafNodes| ==> leafNodes[i] in root.Repr
      ensures |leafValues| == 1 ==> root == leafNodes[0]
      ensures forall i :: 0 <= i < |leafNodes| ==> fresh(leafNodes[i])
      ensures forall i, j :: 0 <= i < j < |leafNodes| ==> leafNodes[i] != leafNodes[j]
    {
      var nodes := MakeLeaves(h, leafValues);
      assert Models(nodes) == Leaves(leafValues);
      var top := BuildTree(h, nodes);
      ValidNode(h, top);
      RootOfLeaves(h, leafValues);
      leafNodes := nodes;
      root := top;
    }

    /** [MerkleNode(value) for value in leaf_values] */
    static method MakeLeaves(h: Hasher, values: seq<string>) returns (nodes: seq<MerkleNode>)
      ensures |nodes| == |values|
      ensures forall i :: 0 <= i < |nodes| ==>
        nodes[i].Valid(h) && nodes[i].model == Leaf(values[i]) && nodes[i].hash == h(values[i])
      ensures forall i :: 0 <= i < |nodes| ==> fresh(nodes[i])
      ensures forall i, j :: 0 <= i < j < |nodes| ==> nodes[i] != nodes[j]
    {
      nodes := [];
      for i := 0 to |values|
        invariant |nodes| == i
        invariant forall k :: 0 <= k < i ==>
          nodes[k].Valid(h) && nodes[k].model == Leaf(values[k]) && nodes[k].hash == h(values[k])
        invariant forall k :: 0 <= k < i ==> fresh(nodes[k])
        invariant forall k, l :: 0 <= k < l < i ==> nodes[k] != nodes[l]
      {
        var leaf := new MerkleNode(h, values[i]);
        nodes := nodes + [leaf];
      }
    }

    /** build_tree: a single node is the root; otherwise the level is paired
        and the tree is built on the parents. */
    static method BuildTree(h: Hasher, nodes: seq<MerkleNode>) returns (root: MerkleNode)
      requires |nodes| > 0
      requires forall i :: 0 <= i < |nodes| ==> nodes[i].Valid(h)
      ensures root.Valid(h) && root.model == Build(Models(nodes))
      ensures |nodes| == 1 ==> root == nodes[0]
      ensures forall i :: 0 <= i < |nodes| ==> nodes[i].Repr <= root.Repr
      decreases |nodes|
    {
      if |nodes| == 1 {
        return nodes[0];
      }
      var parentNodes := PairNodes(h, nodes);
      root := BuildTree(h, parentNodes);
      BelowParents(nodes, parentNodes, root.Repr);
    }

    /** The loop of build_tree: walk the level in steps of two and append the
        parent of nodes i and i+1, or of node i with itself when it is the
        last one. */
    static method PairNodes(h: Hasher, nodes: seq<MerkleNode>) returns (parentNodes: seq<MerkleNode>)
      requires forall i :: 0 <= i < |nodes| ==> nodes[i].Valid(h)
      ensures |parentNodes| == (|nodes| + 1) / 2
      ensures forall k :: 0 <= k < |parentNodes| ==> parentNodes[k].Valid(h)
      ensures Models(parentNodes) == Pair(Models(nodes))
      ensures forall k :: 0 <= k < |parentNodes| ==>
        parentNodes[k].left == nodes[2 * k] &&
        parentNodes[k].right == (if 2 * k + 1 < |nodes| then nodes[2 * k + 1] else nodes[2 * k])
      ensures forall k :: 0 <= k < |parentNodes| ==>
        parentNodes[k].left.Repr <= parentNodes[k].Repr && parentNodes[k].right.Repr <= parentNodes[k].Repr
    {
      ghost var level := Models(nodes);
      parentNodes := [];
      var i := 0;
      while i < |nodes|
        invariant 0 <= i <= |nodes| + 1 && i == 2 * |parentNodes|
        invariant forall k :: 0 <= k < |nodes| ==> nodes[k].model == level[k]
        invariant forall k :: 0 <= k < |parentNodes| ==>
          parentNodes[k].Valid(h) && parentNodes[k].model == PairOf(level, k)
        invariant forall k :: 0 <= k < |parentNodes| ==>
          parentNodes[k].left == nodes[2 * k] &&
          parentNodes[k].right == (if 2 * k + 1 < |nodes| then nodes[2 * k + 1] else nodes[2 * k])
        invariant forall k :: 0 <= k < |parentNodes| ==>
          parentNodes[k].left.Repr <= parentNodes[k].Repr && parentNodes[k].right.Repr <= parentNodes[k].Repr
      {
        var leftNode := nodes[i];
        var rightNode := if i + 1 < |nodes| then nodes[i + 1] else leftNode;
        var parentNode := CreateParentNode(h, leftNode, rightNode);
        assert parentNode.model == PairOf(level, |parentNodes|);
        var next := parentNodes + [parentNode];
        forall k | 0 <= k < |next|
          ensures next[k].Valid(h) && next[k].model == PairOf(level, k)
          ensures next[k].left == nodes[2 * k]
          ensures next[k].right == (if 2 * k + 1 < |nodes| then nodes[2 * k + 1] else nodes[2 * k])
          ensures next[k].left.Repr <= next[k].Repr && next[k].right.Repr <= next[k].Repr
        {
          if k < |parentNodes| {
            assert next[k] == parentNodes[k];
          } else {
            assert next[k] == parentNode && 2 * k == i;
          }
        }
        parentNodes := next;
        i := i + 2;
      }
      forall k | 0 <= k < |parentNodes|
        ensures Models(parentNodes)[k] == Pair(level)[k]
      {
        PairAt(level, k);
      }
    }

    /** create_parent_node: a new node on the concatenated values, linked to
        both children, whose hash is then overwritten with the hash of the
        children's hashes. */
    static method CreateParentNode(h: Hasher, leftNode: MerkleNode, rightNode: MerkleNode)
      returns (parentNode: MerkleNode)
      requires leftNode.Valid(h) && rightNode.Valid(h)
      ensures fresh(parentNode) && parentNode.Valid(h)
      ensures parentNode.left == leftNode && parentNode.right == rightNode
      ensures parentNode.value == leftNode.value + rightNode.value
      ensures parentNode.hash == h(leftNode.hash + rightNode.hash)
      ensures parentNode.model == Node(leftNode.model, rightNode.model)
      ensures leftNode.Repr <= parentNode.Repr && rightNode.Repr <= parentNode.Repr
    {
      parentNode := new MerkleNode(h, leftNode.value + rightNode.value);
      parentNode.left := leftNode;
      parentNode.right := rightNode;
      parentNode.hash := CalculateHash(h, parentNode);
      parentNode.model := Node(leftNode.model, rightNode.model);
      parentNode.Repr := {parentNode} + leftNode.Repr + rightNode.Repr;
      // the nodes below keep their links: the new node is none of them
      forall n | n in parentNode.Repr
        ensures n.ChildrenIn(parentNode.Repr) && n.Linked(h)
      {
        if n != parentNode {
          assert old(n.Linked(h));
        }
      }
    }

    /** calculate_hash: the hash of the children's hashes, left first. */
    static function CalculateHash(h: Hasher, node: MerkleNode): (r: string)
      requires node.left != null && node.right != null
      reads node, node.left, node.right
      ensures r == MerkleRoot(h, [node.left.hash, node.right.hash])
    {
      var hs := [node.left.hash, node.right.hash];
      assert NextHashes(h, hs) == [h(hs[0] + hs[1])] + NextHashes(h, hs[2..]);
      assert hs[2..] == [];
      h(node.left.hash + node.right.hash)
    }
  }
}
