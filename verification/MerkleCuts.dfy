/**
 Backwards from one genuine root.  Acceptance of a consistency path against the root of a list
 makes the older root the root of a prefix of that list, whatever list or size the older root
 was claimed for, or meets a hash collision on the way down.
 */
module MerkleCuts {
  import opened Wrappers
  import opened Hashing
  import opened MerkleTree
  import opened MerkleConsistency
  import opened MerkleSoundness

  /** Where a replay that ends in the root of `news` cuts that list, or the collision on the way. */
  function ReplayCut(
    h: Hasher, sides: seq<Side>, seed: Digest, siblings: seq<Digest>, news: seq<Digest>
  ): (r: Result<nat, Collision>)
    requires |sides| == |siblings| && |news| >= 1
    ensures r.Ok? ==> 1 <= r.value <= |news|
    decreases |sides|
  {
    if sides == [] then Ok(|news|)
    else
      var last := |sides| - 1;
      var n := Replay(h, sides[..last], seed, seed, siblings[..last]).1;
      var claimed := if sides[last].OnRight? then NodeInput(n, siblings[last]) else NodeInput(siblings[last], n);
      match CompareNode(h, claimed, news)
      case Some(c) => Err(c)
      case None =>
        var k := LargestPowerOfTwoLessThan(|news|);
        if sides[last].OnRight? then ReplayCut(h, sides[..last], seed, siblings[..last], news[..k])
        else
          match ReplayCut(h, sides[..last], seed, siblings[..last], news[k..])
          case Err(c) => Err(c)
          case Ok(p) => Ok(k + p)
  }

  // A prefix cut inside the right subtree has the root of the left subtree on its left.
  lemma {:induction false} RootOfCut(h: Hasher, es: seq<Digest>, p: nat)
    requires |es| >= 2
    requires var k := LargestPowerOfTwoLessThan(|es|); 1 <= p <= |es| - k
    ensures var k := LargestPowerOfTwoLessThan(|es|);
            MerkleRoot(h, es[..k + p]) == NodeHash(h, MerkleRoot(h, es[..k]), MerkleRoot(h, es[k..][..p]))
  {
    hide MerkleRoot, LargestPowerOfTwoLessThan;
    var k := LargestPowerOfTwoLessThan(|es|);
    SplitOfCut(k + p, |es|);
    MerkleRootSplits(h, es[..k + p]);
    assert es[..k + p][..k] == es[..k] && es[..k + p][k..] == es[k..][..p];
  }

  /** One genuine root is enough: the other running hash is the root of a prefix. */
  lemma {:induction false} ReplayCutIsPrefixRoot(
    h: Hasher, sides: seq<Side>, seed: Digest, siblings: seq<Digest>, news: seq<Digest>)
    requires |sides| == |siblings| && |news| >= 1
    requires Replay(h, sides, seed, seed, siblings).1 == MerkleRoot(h, news)
    ensures match ReplayCut(h, sides, seed, siblings, news)
            case Err(c) => IsCollision(h, c)
            case Ok(p) => Replay(h, sides, seed, seed, siblings).0 == MerkleRoot(h, news[..p])
    decreases |sides|
  {
    hide LargestPowerOfTwoLessThan, CompareNode, Replay, MerkleRoot;
    if sides == [] {
      assert news[..|news|] == news;
      ReplayNothing(h, seed);
    } else {
      var last := |sides| - 1;
      var inner, innerSiblings, outer := sides[..last], siblings[..last], siblings[last];
      var n := Replay(h, inner, seed, seed, innerSiblings).1;
      ReplayUnsnoc(h, sides, seed, siblings);
      var claimed := if sides[last].OnRight? then NodeInput(n, outer) else NodeInput(outer, n);
      CompareNodeCollides(h, claimed, news);
      if CompareNode(h, claimed, news).None? {
        var k := LargestPowerOfTwoLessThan(|news|);
        if sides[last].OnRight? {
          ReplayCutIsPrefixRoot(h, inner, seed, innerSiblings, news[..k]);
          var r := ReplayCut(h, inner, seed, innerSiblings, news[..k]);
          assert r.Ok? ==> news[..k][..r.value] == news[..r.value];
        } else {
          ReplayCutIsPrefixRoot(h, inner, seed, innerSiblings, news[k..]);
          var r := ReplayCut(h, inner, seed, innerSiblings, news[k..]);
          if r.Ok? { RootOfCut(h, news, r.value); }
        }
      }
    }
  }

  lemma ReplayNothing(h: Hasher, seed: Digest)
    ensures Replay(h, [], seed, seed, []) == (seed, seed)
  {
  }

  /** The cut behind an accepted path: how many entries of `news` the older root covers. */
  function ConsistencyCut(
    h: Hasher, oldSize: nat, newSize: nat, oldRoot: Digest, path: seq<Digest>, news: seq<Digest>
  ): (r: Result<nat, Collision>)
    requires 1 <= oldSize <= newSize && |news| >= 1
    ensures r.Ok? ==> 1 <= r.value <= |news|
  {
    if oldSize == newSize then Ok(|news|)
    else
      var (f, s) := StripOnes(oldSize - 1, newSize - 1);
      if f == 0 then ReplayCut(h, Walk(f, s, |path|), oldRoot, path, news)
      else if path == [] then Ok(|news|)
      else ReplayCut(h, Walk(f, s, |path| - 1), path[0], path[1..], news)
  }

  /**
   An accepted path whose new root is the root of a list has as its old root the root of a
   prefix of that list, or the computed pair of inputs collides.  Nothing is assumed about the
   old root, nor that either stated size is the length of a list.
   */
  lemma {:induction false} OldRootIsPrefixRoot(
    h: Hasher, oldSize: nat, newSize: nat, oldRoot: Digest, path: seq<Digest>, news: seq<Digest>)
    requires 1 <= oldSize <= newSize && |news| >= 1
    requires ConsistencyAccepted(h, oldSize, newSize, oldRoot, MerkleRoot(h, news), path)
    ensures match ConsistencyCut(h, oldSize, newSize, oldRoot, path, news)
            case Err(c) => IsCollision(h, c)
            case Ok(p) => oldRoot == MerkleRoot(h, news[..p])
  {
    hide StripOnes, Walk, Replay, ReplayCut, MerkleRoot, IsSha256Digest;
    if oldSize == newSize {
      assert news[..|news|] == news;
    } else {
      var (f, s) := StripOnes(oldSize - 1, newSize - 1);
      var seed: Digest := if f == 0 then oldRoot else path[0];
      var siblings: seq<Digest> := if f == 0 then path else path[1..];
      ReplayCutIsPrefixRoot(h, Walk(f, s, |siblings|), seed, siblings, news);
    }
  }
}
