// The bottom-up Merkle tree that writes every leaf's existence proof while it is built.
module Merkle {
  import opened Arith
  import opened Bytes
  import opened Wrappers
  import opened Protobuf
  import opened MerkleTree

  const HASH_OP_SHA256 := 1

  class Leaf {
    const hash: seq<Byte>
    var proof: seq<seq<Byte>>

    constructor (hash: seq<Byte>)
      ensures this.hash == hash && proof == []
    {
      this.hash := hash;
      proof := [];
    }
  }

  // A subtree; nodes are never changed once built.
  datatype Node = Node(hash: seq<Byte>, height: nat, size: nat, leaves: seq<Leaf>)

  function WithLength(b: seq<Byte>): (e: seq<Byte>)
  {
    Uvarint(|b|) + b
  }

  // Height, size and version of an inner node.
  function InnerPrefix(height: nat, size: nat): (e: seq<Byte>)
  {
    Varint(height) + Varint(size) + Varint(1)
  }

  function ApplyInner(sha: Hash, prefix: seq<Byte>, left: seq<Byte>, right: seq<Byte>): (h: seq<Byte>)
  {
    sha(prefix + WithLength(left) + WithLength(right))
  }

  lemma HeaderBack(height: nat, size: nat, rest: seq<Byte>)
    ensures ReadHeader(InnerPrefix(height, size) + rest) == Some((Header(height, size, 1), rest))
  {
    hide Varint, ReadVarint;
    var v1, v2, v3 := Varint(height), Varint(size), Varint(1);
    assert v1 + v2 + v3 + rest == v1 + (v2 + (v3 + rest));
    VarintBack(height, v2 + (v3 + rest));
    VarintBack(size, v3 + rest);
    VarintBack(1, rest);
  }

  lemma BytesBack(b: seq<Byte>, rest: seq<Byte>)
    ensures ReadBytes(WithLength(b) + rest) == Some((b, rest))
  {
    hide Uvarint, ReadUvarint;
    assert WithLength(b) + rest == Uvarint(|b|) + (b + rest);
    UvarintBack(|b|, b + rest);
    assert (b + rest)[..|b|] == b && (b + rest)[|b|..] == rest;
  }

  // What a node is hashed from is read back as its height, its size, one, and both hashes.
  lemma InnerBack(height: nat, size: nat, left: seq<Byte>, right: seq<Byte>)
    ensures ReadInner(InnerPrefix(height, size) + WithLength(left) + WithLength(right))
         == Some(Inner(Header(height, size, 1), left, right))
  {
    hide InnerPrefix, WithLength, ReadHeader, ReadBytes;
    var a, b := WithLength(left), WithLength(right);
    assert InnerPrefix(height, size) + a + b == InnerPrefix(height, size) + (a + b);
    HeaderBack(height, size, a + b);
    BytesBack(left, b);
    BytesBack(right, []);
    assert b + [] == b;
  }

  // ---- checking a proof, as ICS-23 does ----

  // One operation: the hash of prefix, child and suffix.
  function ApplyOp(sha: Hash, op: seq<Byte>, child: Option<seq<Byte>>): (h: Option<seq<Byte>>)
  {
    var inner := ReadInnerOp(op);
    if child.None? || inner.None? || inner.value.hash != HASH_OP_SHA256 then None
    else Some(sha(inner.value.prefix + child.value + inner.value.suffix))
  }

  // The root a proof leads to from the hash of a leaf.
  function Climb(sha: Hash, leaf: seq<Byte>, proof: seq<seq<Byte>>): (h: Option<seq<Byte>>)
  {
    if |proof| == 0 then Some(leaf)
    else ApplyOp(sha, proof[|proof| - 1], Climb(sha, leaf, proof[..|proof| - 1]))
  }

  function LeftOp(prefix: seq<Byte>, left: seq<Byte>, right: seq<Byte>): (op: seq<Byte>)
  {
    InnerOpEncoding(InnerOp(HASH_OP_SHA256, prefix + Uvarint(|left|), WithLength(right)))
  }

  function RightOp(prefix: seq<Byte>, left: seq<Byte>, right: seq<Byte>): (op: seq<Byte>)
  {
    InnerOpEncoding(InnerOp(HASH_OP_SHA256, prefix + WithLength(left) + Uvarint(|right|), []))
  }

  // The operation written for a left or a right child turns its hash into its parent's.
  lemma OpsClimb(sha: Hash, prefix: seq<Byte>, left: seq<Byte>, right: seq<Byte>)
    ensures ApplyOp(sha, LeftOp(prefix, left, right), Some(left)) == Some(ApplyInner(sha, prefix, left, right))
    ensures ApplyOp(sha, RightOp(prefix, left, right), Some(right)) == Some(ApplyInner(sha, prefix, left, right))
  {
    hide InnerOpEncoding, ReadInnerOp, Uvarint;
    InnerOpBack(InnerOp(HASH_OP_SHA256, prefix + Uvarint(|left|), WithLength(right)));
    InnerOpBack(InnerOp(HASH_OP_SHA256, prefix + WithLength(left) + Uvarint(|right|), []));
    assert prefix + Uvarint(|left|) + left + WithLength(right) == prefix + WithLength(left) + WithLength(right);
    assert prefix + WithLength(left) + Uvarint(|right|) + right + []
        == prefix + WithLength(left) + WithLength(right);
  }

  // The operations hold the header of the node, and with the hash of their side all it is hashed from.
  lemma OpsFit(height: nat, size: nat, left: seq<Byte>, right: seq<Byte>)
    ensures IsOp(LeftOp(InnerPrefix(height, size), left, right), Header(height, size, 1), left, right, true)
    ensures IsOp(RightOp(InnerPrefix(height, size), left, right), Header(height, size, 1), left, right, false)
  {
    hide InnerOpEncoding, ReadInnerOp, Uvarint, InnerPrefix, ReadHeader, ReadInner;
    var prefix := InnerPrefix(height, size);
    InnerOpBack(InnerOp(HASH_OP_SHA256, prefix + Uvarint(|left|), WithLength(right)));
    InnerOpBack(InnerOp(HASH_OP_SHA256, prefix + WithLength(left) + Uvarint(|right|), []));
    HeaderBack(height, size, Uvarint(|left|));
    HeaderBack(height, size, WithLength(left) + Uvarint(|right|));
    assert prefix + WithLength(left) + Uvarint(|right|) == prefix + (WithLength(left) + Uvarint(|right|));
    InnerBack(height, size, left, right);
    assert prefix + Uvarint(|left|) + left + WithLength(right) == prefix + WithLength(left) + WithLength(right);
    assert prefix + WithLength(left) + Uvarint(|right|) + right + []
        == prefix + WithLength(left) + WithLength(right);
  }

  lemma ClimbOneMore(sha: Hash, leaf: seq<Byte>, proof: seq<seq<Byte>>, op: seq<Byte>)
    ensures Climb(sha, leaf, proof + [op]) == ApplyOp(sha, op, Climb(sha, leaf, proof))
  {
    assert (proof + [op])[..|proof|] == proof;
  }

  // ---- building the tree ----

  predicate Distinct(leaves: seq<Leaf>)
  {
    forall i, j :: 0 <= i < j < |leaves| ==> leaves[i] != leaves[j]
  }

  // A node with the proofs of its leaves, for a given tree: its height, its size and its hash are those of
  // the tree and its leaves have the hashes at the tips; each proof is the one for its leaf and leads to the
  // hash of the node in at most height steps.
  ghost predicate Proved(sha: Hash, node: Node, tree: Tree)
    reads set leaf | leaf in node.leaves
  {
    && node.size == |node.leaves| == SizeOf(tree) && node.height == HeightOf(tree)
    && HasHash(sha, tree, node.hash)
    && (forall i :: 0 <= i < |node.leaves| ==> node.leaves[i].hash == TipsOf(tree)[i])
    && (forall i :: 0 <= i < |node.leaves| ==> IsProof(sha, tree, i, node.leaves[i].proof))
    && forall leaf <- node.leaves ::
         Climb(sha, leaf.hash, leaf.proof) == Some(node.hash) && |leaf.proof| <= node.height
  }

  // The same once the operation of its side is appended: the proofs lead to the hash of the parent.
  ghost predicate Extended(sha: Hash, node: Node, tree: Tree, op: seq<Byte>, parent: seq<Byte>)
    reads set leaf | leaf in node.leaves
  {
    && node.size == |node.leaves| == SizeOf(tree) && node.height == HeightOf(tree)
    && (forall i :: 0 <= i < |node.leaves| ==> node.leaves[i].hash == TipsOf(tree)[i])
    && (forall i :: 0 <= i < |node.leaves| ==> ExtendedProof(sha, tree, i, op, node.leaves[i].proof))
    && forall leaf <- node.leaves ::
         Climb(sha, leaf.hash, leaf.proof) == Some(parent) && |leaf.proof| <= node.height + 1
  }

  ghost predicate ExtendedProof(sha: Hash, tree: Tree, i: nat, op: seq<Byte>, proof: seq<seq<Byte>>)
    requires i < SizeOf(tree)
  {
    exists was :: proof == was + [op] && IsProof(sha, tree, i, was)
  }

  // Appends an operation to the proof of every leaf of a node, which makes them proofs for its parent.
  method AppendToProofs(sha: Hash, node: Node, op: seq<Byte>, ghost parent: seq<Byte>, ghost tree: Tree)
    requires Proved(sha, node, tree) && Distinct(node.leaves)
    requires ApplyOp(sha, op, Some(node.hash)) == Some(parent)
    modifies set leaf | leaf in node.leaves
    ensures forall leaf <- node.leaves :: leaf.proof == old(leaf.proof) + [op]
    ensures Extended(sha, node, tree, op, parent)
  {
    hide Climb, ApplyOp, HasHash, IsProof;
    var leaves := node.leaves;
    for i := 0 to |leaves|
      invariant forall k :: 0 <= k < i ==> leaves[k].proof == old(leaves[k].proof) + [op]
      invariant forall k :: i <= k < |leaves| ==> leaves[k].proof == old(leaves[k].proof)
    {
      leaves[i].proof := leaves[i].proof + [op];
    }
    forall leaf | leaf in leaves ensures Climb(sha, leaf.hash, leaf.proof) == Some(parent) {
      ClimbOneMore(sha, leaf.hash, old(leaf.proof), op);
    }
  }

  // What is hashed for a parent, and the proofs of its leaves with one more operation.
  lemma ParentHash(sha: Hash, l: Tree, r: Tree, left: seq<Byte>, right: seq<Byte>)
    requires HasHash(sha, l, left) && HasHash(sha, r, right)
    ensures var t := Fork(l, r);
            HasHash(sha, t, ApplyInner(sha, InnerPrefix(HeightOf(t), SizeOf(t)), left, right))
  {
    hide InnerPrefix, WithLength, ReadInner;
    var t := Fork(l, r);
    InnerBack(HeightOf(t), SizeOf(t), left, right);
    var b := InnerPrefix(HeightOf(t), SizeOf(t)) + WithLength(left) + WithLength(right);
    assert ReadInner(b) == Some(Inner(Header(HeightOf(t), SizeOf(t), 1), left, right));
  }

  lemma ParentProof(sha: Hash, l: Tree, r: Tree, left: seq<Byte>, right: seq<Byte>, i: nat, proof: seq<seq<Byte>>,
                    op: seq<Byte>)
    requires HasHash(sha, l, left) && HasHash(sha, r, right) && i < SizeOf(Fork(l, r))
    requires IsOp(op, Header(HeightOf(Fork(l, r)), SizeOf(Fork(l, r)), 1), left, right, i < SizeOf(l))
    requires if i < SizeOf(l) then IsProof(sha, l, i, proof) else IsProof(sha, r, i - SizeOf(l), proof)
    ensures IsProof(sha, Fork(l, r), i, proof + [op])
  {
    hide IsOp, HasHash;
    var all := proof + [op];
    assert all[..|all| - 1] == proof && all[|all| - 1] == op;
  }

  lemma ForkHeight(l: Tree, r: Tree)
    ensures HeightOf(Fork(l, r)) == (if HeightOf(l) > HeightOf(r) then HeightOf(l) else HeightOf(r)) + 1
  {
  }

  lemma ParentProved(sha: Hash, left: Node, right: Node, l: Tree, r: Tree, hash: seq<Byte>,
                     leftOp: seq<Byte>, rightOp: seq<Byte>)
    requires Extended(sha, left, l, leftOp, hash) && Extended(sha, right, r, rightOp, hash)
    requires HasHash(sha, l, left.hash) && HasHash(sha, r, right.hash) && HasHash(sha, Fork(l, r), hash)
    requires IsOp(leftOp, Header(HeightOf(Fork(l, r)), SizeOf(Fork(l, r)), 1), left.hash, right.hash, true)
    requires IsOp(rightOp, Header(HeightOf(Fork(l, r)), SizeOf(Fork(l, r)), 1), left.hash, right.hash, false)
    ensures var height := (if left.height > right.height then left.height else right.height) + 1;
            Proved(sha, Node(hash, height, left.size + right.size, left.leaves + right.leaves), Fork(l, r))
  {
    hide Climb, HasHash, IsOp, IsProof, HeightOf;
    ForkHeight(l, r);
    var leaves := left.leaves + right.leaves;
    forall i | 0 <= i < |leaves| ensures IsProof(sha, Fork(l, r), i, leaves[i].proof) {
      var onLeft := i < |left.leaves|;
      assert leaves[i] == if onLeft then left.leaves[i] else right.leaves[i - |left.leaves|];
      var op := if onLeft then leftOp else rightOp;
      var was :| leaves[i].proof == was + [op]
              && if onLeft then IsProof(sha, l, i, was) else IsProof(sha, r, i - SizeOf(l), was);
      ParentProof(sha, l, r, left.hash, right.hash, i, was, op);
    }
  }

  method Combine(sha: Hash, left: Node, right: Node, ghost l: Tree, ghost r: Tree) returns (node: Node)
    requires Proved(sha, left, l) && Proved(sha, right, r) && Distinct(left.leaves + right.leaves)
    modifies set leaf | leaf in left.leaves + right.leaves
    ensures Proved(sha, node, Fork(l, r))
    ensures node.leaves == left.leaves + right.leaves
    ensures node.height == (if left.height > right.height then left.height else right.height) + 1
  {
    hide Climb, ApplyOp, ApplyInner, LeftOp, RightOp, InnerPrefix, HasHash, IsOp, IsProof, HeightOf, Distinct, Extended;
    ForkHeight(l, r);
    var height := (if left.height > right.height then left.height else right.height) + 1;
    var size := left.size + right.size;
    var prefix := InnerPrefix(height, size);
    var hash := ApplyInner(sha, prefix, left.hash, right.hash);
    OpsClimb(sha, prefix, left.hash, right.hash);
    OpsFit(height, size, left.hash, right.hash);
    ParentHash(sha, l, r, left.hash, right.hash);
    BothDistinct(left.leaves, right.leaves);
    var leftOp, rightOp := LeftOp(prefix, left.hash, right.hash), RightOp(prefix, left.hash, right.hash);
    AppendToProofs(sha, left, leftOp, hash, l);
    AppendToProofs(sha, right, rightOp, hash, r);
    node := Node(hash, height, size, left.leaves + right.leaves);
    ParentProved(sha, left, right, l, r, hash, leftOp, rightOp);
  }

  lemma BothDistinct(s: seq<Leaf>, t: seq<Leaf>)
    requires Distinct(s + t)
    ensures Distinct(s) && Distinct(t) && forall x <- s :: x !in t
  {
    var all := s + t;
    forall i, j | 0 <= i < j < |s| ensures s[i] != s[j] {
      assert all[i] != all[j];
    }
    forall i, j | 0 <= i < j < |t| ensures t[i] != t[j] {
      assert all[|s| + i] != all[|s| + j];
    }
    forall i, j | 0 <= i < |s| && 0 <= j < |t| ensures s[i] != t[j] {
      assert all[i] != all[|s| + j];
    }
  }

  function LeavesOf(nodes: seq<Node>): seq<Leaf>
  {
    if |nodes| == 0 then [] else nodes[0].leaves + LeavesOf(nodes[1..])
  }

  lemma {:induction false} LeavesOfConcat(s: seq<Node>, t: seq<Node>)
    ensures LeavesOf(s + t) == LeavesOf(s) + LeavesOf(t)
  {
    if |s| == 0 {
      assert s + t == t;
    } else {
      assert (s + t)[1..] == s[1..] + t;
      LeavesOfConcat(s[1..], t);
    }
  }

  lemma {:induction false} LeavesIncluded(nodes: seq<Node>, k: nat)
    requires k < |nodes|
    ensures forall leaf <- nodes[k].leaves :: leaf in LeavesOf(nodes)
  {
    if k > 0 {
      LeavesIncluded(nodes[1..], k - 1);
    }
  }

  // Subtrees with their proofs, none higher than given.
  ghost predicate Forest(sha: Hash, nodes: seq<Node>, trees: seq<Tree>, height: nat)
    reads set leaf | leaf in LeavesOf(nodes)
  {
    |nodes| == |trees| && forall k :: 0 <= k < |nodes| ==>
      (LeavesIncluded(nodes, k); nodes[k].height <= height && Proved(sha, nodes[k], trees[k]))
  }

  lemma ForestSnoc(sha: Hash, nodes: seq<Node>, trees: seq<Tree>, node: Node, tree: Tree, height: nat)
    requires Forest(sha, nodes, trees, height) && Proved(sha, node, tree) && node.height <= height
    ensures Forest(sha, nodes + [node], trees + [tree], height)
  {
    hide Proved, LeavesOf;
  }

  lemma ForestDrop(sha: Hash, nodes: seq<Node>, trees: seq<Tree>, n: nat, height: nat)
    requires Forest(sha, nodes, trees, height) && n <= |nodes|
    ensures |nodes| == |trees| && Forest(sha, nodes[n..], trees[n..], height)
  {
    hide Proved, LeavesOf;
  }

  lemma LeavesSnoc(nodes: seq<Node>, node: Node)
    ensures LeavesOf(nodes + [node]) == LeavesOf(nodes) + node.leaves
  {
    LeavesOfConcat(nodes, [node]);
    assert [node][1..] == [] && LeavesOf([node]) == node.leaves + [] == node.leaves;
  }

  // The leaves of two neighbours, among all others.
  lemma NeighbourLeaves(next: seq<Node>, rest: seq<Node>)
    requires |rest| >= 2 && Distinct(LeavesOf(next) + LeavesOf(rest))
    ensures var pair := rest[0].leaves + rest[1].leaves;
            && LeavesOf(rest) == pair + LeavesOf(rest[2..])
            && Distinct(pair)
            && (forall leaf <- pair :: leaf !in LeavesOf(next) && leaf !in LeavesOf(rest[2..]))
            && forall leaf <- pair :: leaf in LeavesOf(next) + LeavesOf(rest)
  {
    hide LeavesOf, Distinct;
    var a, b, tail := rest[0].leaves, rest[1].leaves, LeavesOf(rest[2..]);
    TwoLeaves(rest);
    BothDistinct(LeavesOf(next), LeavesOf(rest));
    BothDistinct(a + b, tail);
    forall leaf | leaf in a + b ensures leaf !in LeavesOf(next) && leaf !in tail {
      assert leaf in LeavesOf(rest);
    }
  }

  lemma TwoLeaves(rest: seq<Node>)
    requires |rest| >= 2
    ensures LeavesOf(rest) == rest[0].leaves + rest[1].leaves + LeavesOf(rest[2..])
  {
    assert rest[1..][1..] == rest[2..];
  }

  lemma NeighboursProved(sha: Hash, rest: seq<Node>, trees: seq<Tree>, height: nat)
    requires |rest| >= 2 && Forest(sha, rest, trees, height)
    ensures |trees| == |rest| && Proved(sha, rest[0], trees[0]) && Proved(sha, rest[1], trees[1])
    ensures rest[0].height <= height && rest[1].height <= height
  {
  }

  // The first two of the remaining nodes combined, behind those that are done.
  method CombineNext(sha: Hash, left: Node, right: Node, ghost next: seq<Node>, ghost done: seq<Tree>,
                     ghost rest: seq<Node>, ghost trees: seq<Tree>, ghost leaves: seq<Leaf>, ghost height: nat)
    returns (node: Node)
    requires |rest| >= 2 && left == rest[0] && right == rest[1] && |trees| == |rest|
    requires Forest(sha, next, done, height + 1) && Forest(sha, rest, trees, height)
    requires LeavesOf(next) + LeavesOf(rest) == leaves && Distinct(leaves)
    modifies set leaf | leaf in leaves
    ensures Forest(sha, next + [node], done + [Fork(trees[0], trees[1])], height + 1)
    ensures Forest(sha, rest[2..], trees[2..], height)
    ensures LeavesOf(next + [node]) + LeavesOf(rest[2..]) == leaves
  {
    hide Proved, LeavesOf, Distinct, Forest;
    NeighbourLeaves(next, rest);
    NeighboursProved(sha, rest, trees, height);
    ForestDrop(sha, rest, trees, 2, height);
    assert forall leaf <- LeavesOf(next) :: leaf in leaves;
    assert forall leaf <- LeavesOf(rest[2..]) :: leaf in LeavesOf(rest) && leaf in leaves;
    node := Combine(sha, left, right, trees[0], trees[1]);
    ForestSnoc(sha, next, done, node, Fork(trees[0], trees[1]), height + 1);
    LeavesSnoc(next, node);
  }

  // One round: neighbours are combined two by two, and an odd one out moves up as it is.
  method CombineLevel(sha: Hash, nodes: seq<Node>, ghost trees: seq<Tree>, ghost leaves: seq<Leaf>, ghost height: nat)
    returns (next: seq<Node>)
    requires Forest(sha, nodes, trees, height) && LeavesOf(nodes) == leaves && Distinct(leaves)
    modifies set leaf | leaf in leaves
    ensures Forest(sha, next, PairUp(trees), height + 1) && LeavesOf(next) == leaves
    ensures |next| == (|nodes| + 1) / 2
  {
    hide Proved, LeavesOf, Distinct, Forest, PairUp, HeightOf;
    next := [];
    NoLeaves(sha, height + 1);
    NoLeaves(sha, height);
    var i := 0;
    ghost var rest, restTrees, done: seq<Tree> := nodes, trees, [];
    assert PairUp([]) == [] by { PairNone(); }
    ForestDrop(sha, nodes, trees, 0, height);
    while i < |nodes|
      invariant rest == if i < |nodes| then nodes[i..] else []
      invariant i == 2 * |next| && i <= |nodes| + 1
      invariant LeavesOf(next) + LeavesOf(rest) == leaves
      invariant Forest(sha, next, done, height + 1) && Forest(sha, rest, restTrees, height) && |rest| == |restTrees|
      invariant done + PairUp(restTrees) == PairUp(trees)
    {
      if i + 1 == |nodes| {
        LastNode(sha, rest, restTrees, height);
        ForestSnoc(sha, next, done, nodes[i], restTrees[0], height + 1);
        LeavesSnoc(next, nodes[i]);
        PairOne(restTrees);
        next := next + [nodes[i]];
        done := done + [restTrees[0]];
        rest, restTrees := [], [];
      } else {
        RestDrops(nodes, i);
        ghost var pair := Fork(restTrees[0], restTrees[1]);
        var node := CombineNext(sha, nodes[i], nodes[i + 1], next, done, rest, restTrees, leaves, height);
        PairTwo(done, restTrees);
        next := next + [node];
        done := done + [pair];
        rest, restTrees := rest[2..], restTrees[2..];
      }
      i := i + 2;
    }
    assert restTrees == [] && done + [] == done by { NoTrees(sha, rest, restTrees, height); }
  }

  lemma RestDrops(nodes: seq<Node>, i: nat)
    requires i + 1 < |nodes|
    ensures nodes[i..][0] == nodes[i] && nodes[i..][1] == nodes[i + 1]
    ensures nodes[i..][2..] == if i + 2 < |nodes| then nodes[i + 2..] else []
  {
  }

  lemma PairNone()
    ensures PairUp([]) == []
  {
  }

  lemma NoTrees(sha: Hash, rest: seq<Node>, trees: seq<Tree>, height: nat)
    requires Forest(sha, rest, trees, height) && rest == []
    ensures trees == []
  {
  }

  lemma PairOne(trees: seq<Tree>)
    requires |trees| == 1
    ensures PairUp(trees) == [trees[0]]
  {
  }

  lemma PairTwo(done: seq<Tree>, trees: seq<Tree>)
    requires |trees| >= 2
    ensures done + PairUp(trees) == done + [Fork(trees[0], trees[1])] + PairUp(trees[2..])
  {
  }

  lemma NoLeaves(sha: Hash, height: nat)
    ensures LeavesOf([]) == [] && Forest(sha, [], [], height)
  {
  }

  lemma LastNode(sha: Hash, rest: seq<Node>, trees: seq<Tree>, height: nat)
    requires |rest| == 1 && Forest(sha, rest, trees, height)
    ensures |trees| == 1 && Proved(sha, rest[0], trees[0]) && rest[0].height <= height
    ensures LeavesOf(rest) == rest[0].leaves
  {
    assert rest[1..] == [];
  }

  // ---- the whole tree ----

  lemma SingleLeaf(sha: Hash, leaf: Leaf)
    requires leaf.proof == []
    ensures Proved(sha, Node(leaf.hash, 0, 1, [leaf]), Tip(leaf.hash))
  {
  }

  function HashesOf(leaves: seq<Leaf>): (hashes: seq<seq<Byte>>)
    ensures |hashes| == |leaves|
  {
    seq(|leaves|, i requires 0 <= i < |leaves| => leaves[i].hash)
  }

  lemma RootProves(sha: Hash, root: Node, tree: Tree)
    requires Proved(sha, root, tree)
    ensures root.size == |root.leaves| == SizeOf(tree) && root.height == HeightOf(tree)
    ensures HasHash(sha, tree, root.hash)
    ensures forall i :: 0 <= i < |root.leaves| ==> IsProof(sha, tree, i, root.leaves[i].proof)
    ensures forall leaf <- root.leaves ::
              Climb(sha, leaf.hash, leaf.proof) == Some(root.hash) && |leaf.proof| <= root.height
  {
  }

  // How often a number is halved, rounding up, until it is one.
  function Rounds(n: nat): (k: nat)
  {
    if n <= 1 then 0 else 1 + Rounds((n + 1) / 2)
  }

  // That is the logarithm rounded up.
  lemma {:induction false} RoundsIsCeilLog(n: nat)
    requires n > 0
    ensures n <= Pow(2, Rounds(n)) && (n > 1 ==> Pow(2, Rounds(n) - 1) < n)
  {
    if n > 1 {
      RoundsIsCeilLog((n + 1) / 2);
    }
  }

  // The root has the hash of the tree over all leaves in order, divided as the tree says; the proof of each
  // leaf has the operations of the nodes above it and leads from its hash to the root, in at most as many
  // steps as the logarithm of their number, rounded up.
  method BuildRoot(sha: Hash, leaves: seq<Leaf>) returns (root: Node)
    requires |leaves| > 0 && Distinct(leaves) && forall leaf <- leaves :: leaf.proof == []
    modifies set leaf | leaf in leaves
    ensures root.leaves == leaves && root.size == |leaves| == SizeOf(TreeOver(HashesOf(leaves)))
    ensures HasHash(sha, TreeOver(HashesOf(leaves)), root.hash) && root.height == HeightOf(TreeOver(HashesOf(leaves)))
    ensures forall i :: 0 <= i < |leaves| ==> IsProof(sha, TreeOver(HashesOf(leaves)), i, leaves[i].proof)
    ensures forall leaf <- leaves :: Climb(sha, leaf.hash, leaf.proof) == Some(root.hash)
    ensures forall leaf <- leaves :: |leaf.proof| <= Rounds(|leaves|)
  {
    hide LeavesOf, Distinct, Forest, Proved, Joined, HasHash, IsProof;
    var nodes: seq<Node> := [];
    ghost var trees: seq<Tree> := [];
    NoLeaves(sha, 0);
    for i := 0 to |leaves|
      invariant |nodes| == |trees| == i && LeavesOf(nodes) == leaves[..i] && Forest(sha, nodes, trees, 0)
      invariant forall k :: 0 <= k < i ==> trees[k] == Tip(leaves[k].hash)
      invariant forall leaf <- leaves :: leaf.proof == []
    {
      var node := Node(leaves[i].hash, 0, 1, [leaves[i]]);
      SingleLeaf(sha, leaves[i]);
      ForestSnoc(sha, nodes, trees, node, Tip(leaves[i].hash), 0);
      LeavesSnoc(nodes, node);
      nodes := nodes + [node];
      trees := trees + [Tip(leaves[i].hash)];
    }
    ghost var hashes := HashesOf(leaves);
    assert trees == seq(|hashes|, i requires 0 <= i < |hashes| => Tip(hashes[i]));
    assert Joined(trees) == TreeOver(hashes);
    ghost var height := 0;
    while |nodes| > 1
      invariant |nodes| == |trees| > 0 && LeavesOf(nodes) == leaves && Forest(sha, nodes, trees, height)
      invariant height + Rounds(|nodes|) == Rounds(|leaves|)
      invariant Joined(trees) == TreeOver(hashes)
      decreases |nodes|
    {
      nodes := CombineLevel(sha, nodes, trees, leaves, height);
      PairUpJoined(trees);
      trees := PairUp(trees);
      height := height + 1;
    }
    LastNode(sha, nodes, trees, height);
    OnlyTree(trees);
    RootProves(sha, nodes[0], trees[0]);
    return nodes[0];
  }

  lemma OnlyTree(trees: seq<Tree>)
    requires |trees| == 1
    ensures Joined(trees) == trees[0]
  {
  }
}
