// The two leaves between which a missing key would stand.
module Neighbours {
  import opened Bytes
  import opened Wrappers
  import opened Ordering
  import opened Protobuf

  // bytes.Compare
  function Compare(a: seq<Byte>, b: seq<Byte>): (r: int)
    ensures r < 0 <==> Less(a, b)
    ensures r > 0 <==> Less(b, a)
    ensures r == 0 <==> a == b
  {
    LessIsTotal(a, b);
    if Less(a, b) then -1 else if Less(b, a) then 1 else 0
  }

  // A prefix that all keys share does not change their order.
  lemma {:induction false} PrefixKeepsOrder(p: seq<Byte>, a: seq<Byte>, b: seq<Byte>)
    ensures Less(p + a, p + b) <==> Less(a, b)
  {
    if |p| == 0 {
      assert p + a == a && p + b == b;
    } else {
      assert (p + a)[1..] == p[1..] + a && (p + b)[1..] == p[1..] + b;
      PrefixKeepsOrder(p[1..], a, b);
    }
  }

  // The leaves as they are sorted: by key, which may repeat.
  predicate SortedKeys(keys: seq<seq<Byte>>)
  {
    forall i, j :: 0 <= i < j < |keys| ==> !Less(keys[j], keys[i])
  }

  // The key stands between the first n and the others.
  predicate Splits(keys: seq<seq<Byte>>, key: seq<Byte>, n: nat)
  {
    && n <= |keys|
    && (forall k :: 0 <= k < n ==> Less(keys[k], key))
    && (forall k :: n <= k < |keys| ==> Less(key, keys[k]))
  }

  // A leaf with its inner operations as they are encoded.
  datatype ProvenLeaf = ProvenLeaf(key: seq<Byte>, value: seq<Byte>, path: seq<seq<Byte>>)

  function Keys(leaves: seq<ProvenLeaf>): (keys: seq<seq<Byte>>)
    ensures |keys| == |leaves|
  {
    seq(|leaves|, i requires 0 <= i < |leaves| => leaves[i].key)
  }

  function ExistenceOf(prefix: seq<Byte>, leafOp: seq<Byte>, leaf: ProvenLeaf): (e: seq<Byte>)
  {
    ExistenceEncoding(Existence(prefix + leaf.key, leaf.value, leafOp, leaf.path))
  }

  // The proofs of the leaves on both sides of position n; one that is missing is empty.
  function Around(prefix: seq<Byte>, leafOp: seq<Byte>, leaves: seq<ProvenLeaf>, n: nat): (seq<Byte>, seq<Byte>)
    requires n <= |leaves|
  {
    (if n > 0 then ExistenceOf(prefix, leafOp, leaves[n - 1]) else [],
     if n < |leaves| then ExistenceOf(prefix, leafOp, leaves[n]) else [])
  }

  // What is read from a proof: the key of leaf k behind the store prefix, its value and its operations. A
  // proof that is not there is empty.
  predicate Proves(proof: seq<Byte>, there: bool, prefix: seq<Byte>, leafOp: seq<Byte>, leaves: seq<ProvenLeaf>, k: int)
    requires there ==> 0 <= k < |leaves|
  {
    if there then
      var read := ReadExistence(proof);
      && read.Some? && read.value.key == prefix + leaves[k].key && read.value.value == leaves[k].value
      && read.value.leaf == leafOp && read.value.path == leaves[k].path
    else proof == []
  }

  lemma AroundProves(prefix: seq<Byte>, leafOp: seq<Byte>, leaves: seq<ProvenLeaf>, n: nat)
    requires n <= |leaves|
    ensures var (left, right) := Around(prefix, leafOp, leaves, n);
            && Proves(left, n > 0, prefix, leafOp, leaves, n - 1)
            && Proves(right, n < |leaves|, prefix, leafOp, leaves, n)
  {
    hide ExistenceEncoding, ReadExistence;
    if n > 0 {
      var leaf := leaves[n - 1];
      ExistenceBack(Existence(prefix + leaf.key, leaf.value, leafOp, leaf.path));
    }
    if n < |leaves| {
      var leaf := leaves[n];
      ExistenceBack(Existence(prefix + leaf.key, leaf.value, leafOp, leaf.path));
    }
  }

  // The existence proofs of the last leaf before the missing key and of the first after it; either may
  // be missing. The keys are compared with the store prefix in front, though they are sorted without
  // it. A key that is present is refused.
  method NonMembershipNeighbors(prefix: seq<Byte>, leafOp: seq<Byte>, leaves: seq<ProvenLeaf>, key: seq<Byte>)
    returns (r: Outcome<(seq<Byte>, seq<Byte>), ()>)
    requires SortedKeys(Keys(leaves))
    ensures r.Err? <==> key in Keys(leaves)
    ensures r.Ok? ==> exists n: nat :: Splits(Keys(leaves), key, n) && r.value == Around(prefix, leafOp, leaves, n)
                                    && Proves(r.value.0, n > 0, prefix, leafOp, leaves, n - 1)
                                    && Proves(r.value.1, n < |leaves|, prefix, leafOp, leaves, n)
  {
    hide Less, ExistenceEncoding, Proves;
    var left: seq<Byte> := [];
    var target := prefix + key;
    ghost var keys := Keys(leaves);
    for i := 0 to |leaves|
      invariant forall k :: 0 <= k < i ==> Less(keys[k], key)
      invariant left == if i > 0 then ExistenceOf(prefix, leafOp, leaves[i - 1]) else []
    {
      var cmp := Compare(prefix + leaves[i].key, target);
      PrefixKeepsOrder(prefix, keys[i], key);
      PrefixKeepsOrder(prefix, key, keys[i]);
      if cmp < 0 {
        left := ExistenceOf(prefix, leafOp, leaves[i]);
      } else if cmp > 0 {
        AllAfter(keys, i, key);
        NotBefore(keys, i, key);
        assert Splits(keys, key, i);
        var right := ExistenceOf(prefix, leafOp, leaves[i]);
        AroundProves(prefix, leafOp, leaves, i);
        return Ok((left, right));
      } else {
        LessIsTotal(keys[i], key);
        assert keys[i] == key;
        return Err(());
      }
    }
    NotBefore(keys, |keys|, key);
    assert Splits(keys, key, |keys|);
    AroundProves(prefix, leafOp, leaves, |leaves|);
    return Ok((left, []));
  }

  lemma AllAfter(keys: seq<seq<Byte>>, i: nat, key: seq<Byte>)
    requires SortedKeys(keys) && i < |keys| && Less(key, keys[i])
    ensures forall k :: i <= k < |keys| ==> Less(key, keys[k]) && keys[k] != key
  {
    hide Less;
    forall k | i <= k < |keys| ensures Less(key, keys[k]) && keys[k] != key {
      LessIsTotal(keys[i], keys[k]);
      if keys[i] != keys[k] { LessIsTransitive(key, keys[i], keys[k]); }
      LessIsTotal(key, keys[k]);
    }
  }

  lemma NotBefore(keys: seq<seq<Byte>>, n: nat, key: seq<Byte>)
    requires n <= |keys| && forall k :: 0 <= k < n ==> Less(keys[k], key)
    ensures forall k :: 0 <= k < n ==> keys[k] != key
  {
    hide Less;
    LessIsTotal(key, key);
  }
}
