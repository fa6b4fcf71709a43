// The tree the builder has to make, over hashes alone: how it divides, what its nodes are hashed from, and
// what the proof of each leaf says.
module MerkleTree {
  import opened Arith
  import opened Bytes
  import opened Wrappers
  import opened Protobuf

  type Hash = seq<Byte> -> seq<Byte>

  datatype Tree = Tip(hash: seq<Byte>) | Fork(left: Tree, right: Tree)

  function HeightOf(t: Tree): nat
  {
    match t
    case Tip(_) => 0
    case Fork(l, r) =>
      var a, b := HeightOf(l), HeightOf(r);
      1 + if a > b then a else b
  }

  function SizeOf(t: Tree): (n: nat)
    ensures n > 0
  {
    match t
    case Tip(_) => 1
    case Fork(l, r) => SizeOf(l) + SizeOf(r)
  }

  function TipsOf(t: Tree): (hashes: seq<seq<Byte>>)
    ensures |hashes| == SizeOf(t)
  {
    match t
    case Tip(h) => [h]
    case Fork(l, r) => TipsOf(l) + TipsOf(r)
  }

  // ---- what a node is hashed from ----

  datatype Header = Header(height: int, size: int, version: int)

  datatype Inner = Inner(header: Header, left: seq<Byte>, right: seq<Byte>)

  function ReadHeader(b: seq<Byte>): (r: Option<(Header, seq<Byte>)>)
  {
    var height := ReadVarint(b);
    if height.None? then None
    else
      var size := ReadVarint(height.value.1);
      if size.None? then None
      else
        var version := ReadVarint(size.value.1);
        if version.None? then None
        else Some((Header(height.value.0, size.value.0, version.value.0), version.value.1))
  }

  // Bytes behind their length.
  function ReadBytes(b: seq<Byte>): (r: Option<(seq<Byte>, seq<Byte>)>)
  {
    var n := ReadUvarint(b);
    if n.None? || n.value.0 > |n.value.1| then None
    else Some((n.value.1[..n.value.0], n.value.1[n.value.0..]))
  }

  function ReadInner(b: seq<Byte>): (r: Option<Inner>)
  {
    var header := ReadHeader(b);
    if header.None? then None
    else
      var left := ReadBytes(header.value.1);
      if left.None? then None
      else
        var right := ReadBytes(left.value.1);
        if right.None? || |right.value.1| > 0 then None
        else Some(Inner(header.value.0, left.value.0, right.value.0))
  }

  // The hash of a tree: that of the height, the size, the version one and the hashes of both sides, where
  // the numbers are signed and the hashes stand behind their lengths.
  ghost predicate HasHash(sha: Hash, t: Tree, h: seq<Byte>)
  {
    match t
    case Tip(hash) => h == hash
    case Fork(l, r) =>
      exists b, hl, hr ::
        && HasHash(sha, l, hl) && HasHash(sha, r, hr)
        && ReadInner(b) == Some(Inner(Header(HeightOf(t), SizeOf(t), 1), hl, hr)) && h == sha(b)
  }

  lemma HeaderOnly(b: seq<Byte>)
    ensures ReadHeader(b).Some? ==>
              var (h, rest) := ReadHeader(b).value;
              h.height >= 0 && h.size >= 0 && h.version >= 0
              ==> b == Varint(h.height) + Varint(h.size) + Varint(h.version) + rest
  {
    hide Varint, ReadVarint;
    VarintOnly(b);
    if ReadVarint(b).Some? {
      var rest := ReadVarint(b).value.1;
      VarintOnly(rest);
      if ReadVarint(rest).Some? { VarintOnly(ReadVarint(rest).value.1); }
    }
  }

  lemma BytesOnly(b: seq<Byte>)
    ensures ReadBytes(b).Some? ==> b == Uvarint(|ReadBytes(b).value.0|) + ReadBytes(b).value.0 + ReadBytes(b).value.1
  {
    hide Uvarint, ReadUvarint;
    UvarintOnly(b);
  }

  // What a node is hashed from is settled by its height, its size, one, and both hashes.
  lemma InnerOnly(b: seq<Byte>, b': seq<Byte>)
    requires ReadInner(b).Some? && ReadInner(b) == ReadInner(b')
    requires var h := ReadInner(b).value.header; h.height >= 0 && h.size >= 0 && h.version >= 0
    ensures b == b'
  {
    hide Varint, Uvarint, ReadHeader, ReadBytes;
    InnerBytes(b);
    InnerBytes(b');
  }

  lemma InnerBytes(b: seq<Byte>)
    requires ReadInner(b).Some?
    requires var h := ReadInner(b).value.header; h.height >= 0 && h.size >= 0 && h.version >= 0
    ensures var Inner(h, l, r) := ReadInner(b).value;
            b == Varint(h.height) + Varint(h.size) + Varint(h.version) + (Uvarint(|l|) + l) + (Uvarint(|r|) + r)
  {
    hide Varint, Uvarint, ReadHeader, ReadBytes;
    HeaderOnly(b);
    var rest := ReadHeader(b).value.1;
    BytesOnly(rest);
    BytesOnly(ReadBytes(rest).value.1);
    var right := ReadBytes(ReadBytes(rest).value.1).value;
    assert right.1 == [] && right.0 + right.1 == right.0;
  }

  // A tree has one hash.
  lemma {:induction false} HashIsOne(sha: Hash, t: Tree, h: seq<Byte>, h': seq<Byte>)
    requires HasHash(sha, t, h) && HasHash(sha, t, h')
    ensures h == h'
  {
    if t.Fork? {
      var header := Header(HeightOf(t), SizeOf(t), 1);
      var b, hl, hr :| HasHash(sha, t.left, hl) && HasHash(sha, t.right, hr)
                       && ReadInner(b) == Some(Inner(header, hl, hr)) && h == sha(b);
      var b', hl', hr' :| HasHash(sha, t.left, hl') && HasHash(sha, t.right, hr')
                          && ReadInner(b') == Some(Inner(header, hl', hr')) && h' == sha(b');
      HashIsOne(sha, t.left, hl, hl');
      HashIsOne(sha, t.right, hr, hr');
      InnerOnly(b, b');
    }
  }

  // ---- proofs ----

  // An operation for the left or the right side: its prefix starts with the header of the node, and with the
  // hash of that side between prefix and suffix it is all the node is hashed from.
  predicate IsOp(op: seq<Byte>, header: Header, hl: seq<Byte>, hr: seq<Byte>, left: bool)
  {
    var inner := ReadInnerOp(op);
    && inner.Some? && inner.value.hash == 1
    && (var start := ReadHeader(inner.value.prefix); start.Some? && start.value.0 == header)
    && ReadInner(inner.value.prefix + (if left then hl else hr) + inner.value.suffix) == Some(Inner(header, hl, hr))
  }

  // The proof of leaf i, from the leaf up: an operation for every node above it.
  ghost predicate IsProof(sha: Hash, t: Tree, i: nat, proof: seq<seq<Byte>>)
    requires i < SizeOf(t)
  {
    match t
    case Tip(_) => proof == []
    case Fork(l, r) =>
      && |proof| > 0
      && (exists hl, hr ::
            && HasHash(sha, l, hl) && HasHash(sha, r, hr)
            && IsOp(proof[|proof| - 1], Header(HeightOf(t), SizeOf(t), 1), hl, hr, i < SizeOf(l)))
      && (if i < SizeOf(l) then IsProof(sha, l, i, proof[..|proof| - 1])
          else IsProof(sha, r, i - SizeOf(l), proof[..|proof| - 1]))
  }

  // ---- how the tree divides ----

  // The largest power of two below n.
  function Half(n: nat): (k: nat)
    requires n > 1
    ensures 0 < k < n <= 2 * k
  {
    if n == 2 then 1 else 2 * Half((n + 1) / 2)
  }

  lemma {:induction false} HalfIsPower(n: nat)
    requires n > 1
    ensures exists e: nat :: Half(n) == Pow(2, e)
  {
    if n == 2 {
      assert Pow(2, 0) == 1;
    } else {
      HalfIsPower((n + 1) / 2);
      var e: nat :| Half((n + 1) / 2) == Pow(2, e);
      assert Pow(2, e + 1) == 2 * Pow(2, e);
    }
  }

  // Trees put together: the left side takes as many as the largest power of two below their number.
  function Joined(trees: seq<Tree>): (t: Tree)
    requires |trees| > 0
    decreases |trees|
  {
    if |trees| == 1 then trees[0]
    else
      var k := Half(|trees|);
      Fork(Joined(trees[..k]), Joined(trees[k..]))
  }

  function TreeOver(hashes: seq<seq<Byte>>): (t: Tree)
    requires |hashes| > 0
  {
    Joined(seq(|hashes|, i requires 0 <= i < |hashes| => Tip(hashes[i])))
  }

  // Neighbours put together two by two, an odd one out left as it is.
  function PairUp(trees: seq<Tree>): (r: seq<Tree>)
    ensures |r| == (|trees| + 1) / 2
  {
    if |trees| <= 1 then trees else [Fork(trees[0], trees[1])] + PairUp(trees[2..])
  }

  lemma {:induction false} PairUpSplit(trees: seq<Tree>, k: nat)
    requires 2 * k <= |trees|
    ensures PairUp(trees) == PairUp(trees[..2 * k]) + PairUp(trees[2 * k..])
  {
    if k == 0 {
      assert trees[..0] == [] && trees[0..] == trees;
    } else {
      PairUpSplit(trees[2..], k - 1);
      assert trees[..2 * k][2..] == trees[2..][..2 * (k - 1)];
      assert trees[2..][2 * (k - 1)..] == trees[2 * k..];
    }
  }

  // Putting neighbours together again and again gives the same tree as dividing from the top.
  lemma {:induction false} PairUpJoined(trees: seq<Tree>)
    requires |trees| > 1
    ensures Joined(PairUp(trees)) == Joined(trees)
    decreases |trees|
  {
    var n := |trees|;
    if n == 2 {
      assert trees[2..] == [] && trees[..1] == [trees[0]] && trees[1..] == [trees[1]];
      assert PairUp(trees) == [Fork(trees[0], trees[1])];
    } else {
      var k := Half((n + 1) / 2);
      assert Half(n) == 2 * k;
      PairUpSplit(trees, k);
      var pairs := PairUp(trees);
      assert pairs[..k] == PairUp(trees[..2 * k]) && pairs[k..] == PairUp(trees[2 * k..]);
      PairUpJoined(trees[..2 * k]);
      if n - 2 * k > 1 { PairUpJoined(trees[2 * k..]); }
    }
  }

  // ---- the height and the tips of that tree ----

  lemma {:induction false} TipsOfJoined(trees: seq<Tree>)
    requires |trees| > 0 && forall k :: 0 <= k < |trees| ==> trees[k].Tip?
    ensures |TipsOf(Joined(trees))| == |trees|
    ensures forall k :: 0 <= k < |trees| ==> TipsOf(Joined(trees))[k] == trees[k].hash
    decreases |trees|
  {
    if |trees| > 1 {
      var k := Half(|trees|);
      TipsOfJoined(trees[..k]);
      TipsOfJoined(trees[k..]);
    }
  }

  // The tips of the tree are the hashes in order.
  lemma TreeHasTips(hashes: seq<seq<Byte>>)
    requires |hashes| > 0
    ensures TipsOf(TreeOver(hashes)) == hashes
  {
    hide TipsOf;
    TipsOfJoined(seq(|hashes|, i requires 0 <= i < |hashes| => Tip(hashes[i])));
  }
}
