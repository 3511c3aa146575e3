/** The Merkle tree as values: the tree that build_tree links together, the
    pairing of one level into the next (a trailing odd node is paired with
    itself), the recursion down to one root, and the root hash stated over
    the sequence of leaf hashes alone. */
module MerkleSpec {
  import opened Hashing

  /** The shape a built tree has: leaves carry the input values. */
  datatype Tree = Leaf(value: string) | Node(left: Tree, right: Tree)

  /** The value MerkleNode holds: a leaf its own value, a parent the
      concatenation of its children's values. */
  function TreeValue(t: Tree): string {
    match t
    case Leaf(v) => v
    case Node(l, r) => TreeValue(l) + TreeValue(r)
  }

  /** The hash MerkleNode holds: a leaf the hash of its value, a parent the
      hash of its children's hashes concatenated, left first. */
  function TreeHash(h: Hasher, t: Tree): string {
    match t
    case Leaf(v) => h(v)
    case Node(l, r) => h(TreeHash(h, l) + TreeHash(h, r))
  }

  /** One round of build_tree: ceil(n/2) parents in order; parent k pairs
      nodes 2k and 2k+1, or node 2k with itself when it is the last one. */
  function Pair(level: seq<Tree>): (parents: seq<Tree>)
    ensures |parents| == (|level| + 1) / 2
  {
    if |level| == 0 then []
    else if |level| == 1 then [Node(level[0], level[0])]
    else [Node(level[0], level[1])] + Pair(level[2..])
  }

  /** Parent k of a level: nodes 2k and 2k+1, or node 2k with itself when it
      is the last one. */
  function PairOf(level: seq<Tree>, k: nat): Tree
    requires 2 * k < |level|
  {
    Node(level[2 * k], if 2 * k + 1 < |level| then level[2 * k + 1] else level[2 * k])
  }

  /** Pair puts parent k at position k. */
  lemma {:induction false} PairAt(level: seq<Tree>, k: nat)
    requires k < (|level| + 1) / 2
    ensures Pair(level)[k] == PairOf(level, k)
    decreases |level|
  {
    if k > 0 {
      PairAt(level[2..], k - 1);
    }
  }

  /** build_tree: pair levels until one node is left; that node is the root.
      Every level of two or more nodes shrinks, so the recursion ends. */
  function Build(level: seq<Tree>): Tree
    requires |level| > 0
    decreases |level|
  {
    if |level| == 1 then level[0] else Build(Pair(level))
  }

  function Leaves(values: seq<string>): (leaves: seq<Tree>)
    ensures |leaves| == |values|
    ensures forall i :: 0 <= i < |values| ==> leaves[i] == Leaf(values[i])
  {
    seq(|values|, i requires 0 <= i < |values| => Leaf(values[i]))
  }

  function Hashes(h: Hasher, level: seq<Tree>): (hs: seq<string>)
    ensures |hs| == |level|
    ensures forall i :: 0 <= i < |level| ==> hs[i] == TreeHash(h, level[i])
  {
    seq(|level|, i requires 0 <= i < |level| => TreeHash(h, level[i]))
  }

  /** The hash of every leaf: Hash(str(value)), where str of a string is itself. */
  function LeafHashes(h: Hasher, values: seq<string>): (hs: seq<string>)
    ensures |hs| == |values|
    ensures forall i :: 0 <= i < |values| ==> hs[i] == h(values[i])
  {
    seq(|values|, i requires 0 <= i < |values| => h(values[i]))
  }

  /** One round of pairing, on hashes only. */
  function NextHashes(h: Hasher, hs: seq<string>): (next: seq<string>)
    ensures |next| == (|hs| + 1) / 2
  {
    if |hs| == 0 then []
    else if |hs| == 1 then [h(hs[0] + hs[0])]
    else [h(hs[0] + hs[1])] + NextHashes(h, hs[2..])
  }

  /** The Merkle root of a non-empty sequence of hashes. */
  function MerkleRoot(h: Hasher, hs: seq<string>): string
    requires |hs| > 0
    decreases |hs|
  {
    if |hs| == 1 then hs[0] else MerkleRoot(h, NextHashes(h, hs))
  }

  /** Hashing the paired level is pairing the hashes. */
  lemma {:induction false} PairHashes(h: Hasher, level: seq<Tree>)
    ensures Hashes(h, Pair(level)) == NextHashes(h, Hashes(h, level))
    decreases |level|
  {
    if |level| >= 2 {
      PairHashes(h, level[2..]);
      assert Hashes(h, level)[2..] == Hashes(h, level[2..]);
      assert Pair(level) == [Node(level[0], level[1])] + Pair(level[2..]);
      assert Hashes(h, Pair(level)) == [TreeHash(h, Node(level[0], level[1]))] + Hashes(h, Pair(level[2..]));
    }
  }

  /** The hash of the built root is the Merkle root of the level's hashes. */
  lemma {:induction false} BuildHash(h: Hasher, level: seq<Tree>)
    requires |level| > 0
    ensures TreeHash(h, Build(level)) == MerkleRoot(h, Hashes(h, level))
    decreases |level|
  {
    if |level| > 1 {
      BuildHash(h, Pair(level));
      PairHashes(h, level);
    }
  }

  /** The root hash of a tree built on leaf values depends on the leaf
      hashes only. */
  lemma {:induction false} RootOfLeaves(h: Hasher, values: seq<string>)
    requires |values| > 0
    ensures TreeHash(h, Build(Leaves(values))) == MerkleRoot(h, LeafHashes(h, values))
  {
    BuildHash(h, Leaves(values));
    assert Hashes(h, Leaves(values)) == LeafHashes(h, values);
  }

  /** Leaves "a", "b", "c": "c" is paired with itself on the first level. */
  lemma {:induction false} ThreeLeaves(h: Hasher)
    ensures Build(Leaves(["a", "b", "c"])) ==
      Node(Node(Leaf("a"), Leaf("b")), Node(Leaf("c"), Leaf("c")))
    ensures TreeHash(h, Build(Leaves(["a", "b", "c"]))) ==
      h(h(h("a") + h("b")) + h(h("c") + h("c")))
  {
    var level := Leaves(["a", "b", "c"]);
    var parents := [Node(Leaf("a"), Leaf("b")), Node(Leaf("c"), Leaf("c"))];
    assert Pair(level) == parents;
    assert Pair(parents) == [Node(parents[0], parents[1])];
  }

  /** A perfect tree of depth d: every leaf lies d edges below the root. */
  predicate Perfect(t: Tree, d: nat) {
    match t
    case Leaf(_) => d == 0
    case Node(l, r) => d > 0 && Perfect(l, d - 1) && Perfect(r, d - 1)
  }

  /** The number of pairing rounds for n nodes: ceil(log2 n). */
  function Rounds(n: nat): nat {
    if n <= 1 then 0 else 1 + Rounds((n + 1) / 2)
  }

  /** Because an odd node is duplicated rather than promoted, every leaf of
      the root ends up at the same depth, the number of pairing rounds. */
  lemma {:induction false} BuildPerfect(level: seq<Tree>, d: nat)
    requires |level| > 0
    requires forall i :: 0 <= i < |level| ==> Perfect(level[i], d)
    ensures Perfect(Build(level), d + Rounds(|level|))
    decreases |level|
  {
    if |level| > 1 {
      var parents := Pair(level);
      forall k | 0 <= k < |parents|
        ensures Perfect(parents[k], d + 1)
      {
        PairAt(level, k);
        assert Perfect(level[2 * k], d);
      }
      BuildPerfect(parents, d + 1);
    }
  }

  /** The values at the leaves, left to right. */
  function Frontier(t: Tree): seq<string> {
    match t
    case Leaf(v) => [v]
    case Node(l, r) => Frontier(l) + Frontier(r)
  }

  /** The frontiers of a level, one after another. */
  function Flatten(level: seq<Tree>): seq<string> {
    if level == [] then [] else Frontier(level[0]) + Flatten(level[1..])
  }

  lemma {:induction false} FlattenTwo(level: seq<Tree>)
    requires |level| >= 2
    ensures Flatten(level) == (Frontier(level[0]) + Frontier(level[1])) + Flatten(level[2..])
  {
    assert level[1..][1..] == level[2..];
    assert Flatten(level[1..]) == Frontier(level[1]) + Flatten(level[2..]);
  }

  /** Pairing keeps every leaf in order, and adds a copy of the last node's
      leaves when the level is odd. */
  lemma {:induction false} PairFlatten(level: seq<Tree>)
    ensures Flatten(Pair(level)) == Flatten(level) + OddCopy(level)
    decreases |level|
  {
    if |level| == 1 {
      assert Pair(level) == [Node(level[0], level[0])];
      assert Flatten(Pair(level)) == Frontier(level[0]) + Frontier(level[0]) + Flatten([]);
      assert Flatten(level) == Frontier(level[0]) + Flatten([]);
    } else if |level| >= 2 {
      PairFlatten(level[2..]);
      PairFlattenStep(level);
    }
  }

  /** The leaves a pairing round adds: a copy of the last node's when the
      level is odd. */
  function OddCopy(level: seq<Tree>): seq<string> {
    if |level| % 2 == 1 then Frontier(level[|level| - 1]) else []
  }

  lemma {:induction false} PairFlattenStep(level: seq<Tree>)
    requires |level| >= 2
    requires Flatten(Pair(level[2..])) == Flatten(level[2..]) + OddCopy(level[2..])
    ensures Flatten(Pair(level)) == Flatten(level) + OddCopy(level)
  {
    var rest := level[2..];
    var both := Frontier(level[0]) + Frontier(level[1]);
    calc {
      Flatten(Pair(level));
    == { PairHead(level); }
      both + Flatten(Pair(rest));
    ==
      both + (Flatten(rest) + OddCopy(rest));
    ==
      (both + Flatten(rest)) + OddCopy(rest);
    == { FlattenTwo(level); OddCopyTail(level); }
      Flatten(level) + OddCopy(level);
    }
  }

  lemma {:induction false} PairHead(level: seq<Tree>)
    requires |level| >= 2
    ensures Flatten(Pair(level)) == (Frontier(level[0]) + Frontier(level[1])) + Flatten(Pair(level[2..]))
  {
    var parents := Pair(level);
    assert parents[0] == Node(level[0], level[1]);
    assert parents[1..] == Pair(level[2..]);
  }

  lemma {:induction false} OddCopyTail(level: seq<Tree>)
    requires |level| >= 2
    ensures OddCopy(level[2..]) == OddCopy(level)
  {
    var rest := level[2..];
    assert |level| == |rest| + 2;
    if |rest| % 2 == 1 {
      assert level[|level| - 1] == rest[|rest| - 1];
    }
  }

  /** The leaves of a level are the first leaves of its root, in order:
      duplication never drops a leaf. */
  lemma {:induction false} BuildKeepsLeaves(level: seq<Tree>)
    requires |level| > 0
    ensures Flatten(level) <= Frontier(Build(level))
    decreases |level|
  {
    if |level| == 1 {
      assert Flatten(level) == Frontier(level[0]) + Flatten([]);
    } else {
      PairFlatten(level);
      BuildKeepsLeaves(Pair(level));
    }
  }

  /** The leaf values, in input order, are the leftmost leaves of the root. */
  lemma {:induction false} LeavesInOrder(values: seq<string>)
    requires |values| > 0
    ensures values <= Frontier(Build(Leaves(values)))
  {
    BuildKeepsLeaves(Leaves(values));
    FlattenLeaves(values);
  }

  lemma {:induction false} FlattenLeaves(values: seq<string>)
    ensures Flatten(Leaves(values)) == values
    decreases |values|
  {
    if values != [] {
      FlattenLeaves(values[1..]);
      assert Leaves(values)[1..] == Leaves(values[1..]);
    }
  }
}
