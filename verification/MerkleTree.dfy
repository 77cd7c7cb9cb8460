/**
 Merkle roots and inclusion proofs of app/transparency_merkle.py (section 2.1 and 2.1.1
 of RFC 6962, with string domain tags).
 */
module MerkleTree {
  import opened Wrappers
  import opened Hashing

  // ---------------------------------------------------------------- powers of two

  function BitLength(n: nat): nat {
    if n == 0 then 0 else 1 + BitLength(n / 2)
  }

  function Pow2(k: nat): (p: nat)
    ensures 1 <= p
  {
    if k == 0 then 1 else 2 * Pow2(k - 1)
  }

  lemma BitLengthBounds(n: nat)
    requires n >= 1
    ensures BitLength(n) >= 1
    ensures Pow2(BitLength(n) - 1) <= n < Pow2(BitLength(n))
  {
    if n >= 2 {
      BitLengthBounds(n / 2);
    }
  }

  lemma {:induction false} Pow2Monotone(a: nat, b: nat)
    requires a <= b
    ensures Pow2(a) <= Pow2(b)
    decreases b - a
  {
    if a < b {
      Pow2Monotone(a, b - 1);
    }
  }

  lemma {:induction false} BitLengthOfBounded(n: nat, k: nat)
    requires n < Pow2(k)
    ensures BitLength(n) <= k
  {
    if n >= 1 {
      BitLengthBounds(n);
      if BitLength(n) > k {
        Pow2Monotone(k, BitLength(n) - 1);
      }
    }
  }

  /** The split of a tree with `value` leaves: half of it or more goes left, never all. */
  function LargestPowerOfTwoLessThan(value: nat): (k: nat)
    requires value >= 2
    ensures 1 <= k < value <= 2 * k
  {
    BitLengthBounds(value - 1);
    Pow2(BitLength(value - 1) - 1)
  }

  /** The bounds determine the split: it is the only power of two that meets them. */
  lemma {:induction false} SplitIsUnique(value: nat, j: nat)
    requires value >= 2
    requires Pow2(j) < value <= 2 * Pow2(j)
    ensures LargestPowerOfTwoLessThan(value) == Pow2(j)
  {
    var c := BitLength(value - 1) - 1;
    BitLengthBounds(value - 1);
    if c < j {
      Pow2Monotone(c + 1, j);
    } else if j < c {
      Pow2Monotone(j + 1, c);
    }
  }

  // ---------------------------------------------------------------- roots

  function LeafHashes(h: Hasher, entryHashes: seq<Digest>): (leaves: seq<Digest>)
    ensures |leaves| == |entryHashes|
    ensures forall i | 0 <= i < |leaves| :: leaves[i] == LeafHash(h, entryHashes[i])
  {
    seq(|entryHashes|, i requires 0 <= i < |entryHashes| => LeafHash(h, entryHashes[i]))
  }

  function RootFromLeaves(h: Hasher, leaves: seq<Digest>): Digest
    requires |leaves| >= 1
  {
    if |leaves| == 1 then leaves[0]
    else
      var split := LargestPowerOfTwoLessThan(|leaves|);
      NodeHash(h, RootFromLeaves(h, leaves[..split]), RootFromLeaves(h, leaves[split..]))
  }

  function MerkleRoot(h: Hasher, entryHashes: seq<Digest>): Digest {
    if |entryHashes| == 0 then h.of(EmptyInput)
    else RootFromLeaves(h, LeafHashes(h, entryHashes))
  }

  lemma LeafHashesSlice(h: Hasher, es: seq<Digest>, k: nat)
    requires k <= |es|
    ensures LeafHashes(h, es)[..k] == LeafHashes(h, es[..k])
    ensures LeafHashes(h, es)[k..] == LeafHashes(h, es[k..])
  {
  }

  /** MTH of section 2.1 of RFC 6962: the root of a list in terms of the roots of its halves. */
  lemma {:induction false} MerkleRootSplits(h: Hasher, es: seq<Digest>)
    requires |es| >= 1
    ensures |es| == 1 ==> MerkleRoot(h, es) == LeafHash(h, es[0])
    ensures |es| >= 2 ==>
      var k := LargestPowerOfTwoLessThan(|es|);
      MerkleRoot(h, es) == NodeHash(h, MerkleRoot(h, es[..k]), MerkleRoot(h, es[k..]))
  {
    if |es| >= 2 {
      LeafHashesSlice(h, es, LargestPowerOfTwoLessThan(|es|));
    }
  }

  /** A collision found by walking two trees with one root downwards; none when they agree. */
  function RootCollision(h: Hasher, xs: seq<Digest>, ys: seq<Digest>): Option<Collision>
    requires |xs| >= 1 && |ys| >= 1
  {
    if |xs| == 1 && |ys| == 1 then
      if xs[0] == ys[0] then None else Some(Collision(LeafInput(xs[0]), LeafInput(ys[0])))
    else if |xs| == 1 then
      var k := LargestPowerOfTwoLessThan(|ys|);
      Some(Collision(LeafInput(xs[0]), NodeInput(MerkleRoot(h, ys[..k]), MerkleRoot(h, ys[k..]))))
    else if |ys| == 1 then
      var k := LargestPowerOfTwoLessThan(|xs|);
      Some(Collision(NodeInput(MerkleRoot(h, xs[..k]), MerkleRoot(h, xs[k..])), LeafInput(ys[0])))
    else
      var j, k := LargestPowerOfTwoLessThan(|xs|), LargestPowerOfTwoLessThan(|ys|);
      var x := NodeInput(MerkleRoot(h, xs[..j]), MerkleRoot(h, xs[j..]));
      var y := NodeInput(MerkleRoot(h, ys[..k]), MerkleRoot(h, ys[k..]));
      if x != y then Some(Collision(x, y))
      else
        match RootCollision(h, xs[..j], ys[..k])
        case Some(c) => Some(c)
        case None => RootCollision(h, xs[j..], ys[k..])
  }

  lemma RootCollisionStep(h: Hasher, xs: seq<Digest>, ys: seq<Digest>)
    requires |xs| >= 2 && |ys| >= 2
    ensures var j, k := LargestPowerOfTwoLessThan(|xs|), LargestPowerOfTwoLessThan(|ys|);
            MerkleRoot(h, xs[..j]) == MerkleRoot(h, ys[..k]) && MerkleRoot(h, xs[j..]) == MerkleRoot(h, ys[k..]) ==>
              RootCollision(h, xs, ys) ==
              match RootCollision(h, xs[..j], ys[..k])
              case Some(c) => Some(c)
              case None => RootCollision(h, xs[j..], ys[k..])
  {
    hide MerkleRoot, LargestPowerOfTwoLessThan;
  }

  // The top of two trees with one root: the inputs differ and collide, or the halves have the same roots.
  lemma TopsBind(h: Hasher, xs: seq<Digest>, ys: seq<Digest>)
    requires |xs| >= 1 && |ys| >= 1 && MerkleRoot(h, xs) == MerkleRoot(h, ys)
    ensures var collision := RootCollision(h, xs, ys);
            if |xs| >= 2 && |ys| >= 2 then
              var j, k := LargestPowerOfTwoLessThan(|xs|), LargestPowerOfTwoLessThan(|ys|);
              || (MerkleRoot(h, xs[..j]) == MerkleRoot(h, ys[..k]) && MerkleRoot(h, xs[j..]) == MerkleRoot(h, ys[k..]))
              || (collision.Some? && IsCollision(h, collision.value))
            else if collision.None? then xs == ys
            else IsCollision(h, collision.value)
  {
    hide MerkleRoot, LargestPowerOfTwoLessThan;
    MerkleRootSplits(h, xs);
    MerkleRootSplits(h, ys);
  }

  /** One root commits to one list, of any length, unless the hash function collides. */
  lemma {:induction false} RootBindsList(h: Hasher, xs: seq<Digest>, ys: seq<Digest>)
    requires |xs| >= 1 && |ys| >= 1
    requires MerkleRoot(h, xs) == MerkleRoot(h, ys)
    ensures match RootCollision(h, xs, ys)
            case None => xs == ys
            case Some(c) => IsCollision(h, c)
    decreases |xs|
  {
    hide *;
    TopsBind(h, xs, ys);
    if |xs| >= 2 && |ys| >= 2 {
      var j, k := LargestPowerOfTwoLessThan(|xs|), LargestPowerOfTwoLessThan(|ys|);
      if MerkleRoot(h, xs[..j]) == MerkleRoot(h, ys[..k]) && MerkleRoot(h, xs[j..]) == MerkleRoot(h, ys[k..]) {
        RootCollisionStep(h, xs, ys);
        RootBindsList(h, xs[..j], ys[..k]);
        RootBindsList(h, xs[j..], ys[k..]);
        assert xs == xs[..j] + xs[j..] && ys == ys[..k] + ys[k..];
      }
    }
  }

  // ---------------------------------------------------------------- inclusion proofs

  const MAX_PROOF_HASHES: nat := 256

  function InclusionPathFromLeaves(h: Hasher, leaves: seq<Digest>, leafIndex: nat): seq<Digest>
    requires leafIndex < |leaves|
  {
    if |leaves| == 1 then []
    else
      var split := LargestPowerOfTwoLessThan(|leaves|);
      if leafIndex < split then
        InclusionPathFromLeaves(h, leaves[..split], leafIndex) + [RootFromLeaves(h, leaves[split..])]
      else
        InclusionPathFromLeaves(h, leaves[split..], leafIndex - split) + [RootFromLeaves(h, leaves[..split])]
  }

  function GenerateInclusionPath(h: Hasher, entryHashes: seq<Digest>, leafIndex: int): Option<seq<Digest>> {
    if leafIndex < 0 || leafIndex >= |entryHashes| then None
    else Some(InclusionPathFromLeaves(h, LeafHashes(h, entryHashes), leafIndex))
  }

  function RootFromInclusionPath(
    h: Hasher, leaf: Digest, leafIndex: nat, treeSize: nat, path: seq<Digest>, offset: nat
  ): Option<(Digest, nat)>
    requires leafIndex < treeSize
    decreases treeSize
  {
    if treeSize == 1 then Some((leaf, offset))
    else
      var split := LargestPowerOfTwoLessThan(treeSize);
      if leafIndex < split then
        match RootFromInclusionPath(h, leaf, leafIndex, split, path, offset)
        case None => None
        case Some((left, consumed)) =>
          if consumed >= |path| then None else Some((NodeHash(h, left, path[consumed]), consumed + 1))
      else
        match RootFromInclusionPath(h, leaf, leafIndex - split, treeSize - split, path, offset)
        case None => None
        case Some((right, consumed)) =>
          if consumed >= |path| then None else Some((NodeHash(h, path[consumed], right), consumed + 1))
  }

  function CalculateRootFromInclusionProof(
    h: Hasher, entryHash: string, leafIndex: int, treeSize: int, auditPath: seq<string>
  ): Option<Digest> {
    if treeSize < 1 || leafIndex < 0 || leafIndex >= treeSize then None
    else if |auditPath| > MAX_PROOF_HASHES then None
    else if !(forall i | 0 <= i < |auditPath| :: IsSha256Digest(auditPath[i])) then None
    else if !IsSha256Digest(entryHash) then None
    else
      match RootFromInclusionPath(h, LeafHash(h, entryHash), leafIndex, treeSize, auditPath, 0)
      case None => None
      case Some((root, consumed)) => if consumed != |auditPath| then None else Some(root)
  }

  /** How deep leaf `leafIndex` sits in a tree of `treeSize` leaves. */
  function Depth(leafIndex: nat, treeSize: nat): nat
    requires leafIndex < treeSize
    decreases treeSize
  {
    if treeSize == 1 then 0
    else
      var split := LargestPowerOfTwoLessThan(treeSize);
      if leafIndex < split then 1 + Depth(leafIndex, split) else 1 + Depth(leafIndex - split, treeSize - split)
  }

  lemma {:induction false} DepthBound(leafIndex: nat, treeSize: nat, k: nat)
    requires leafIndex < treeSize <= Pow2(k)
    ensures Depth(leafIndex, treeSize) <= k
    decreases treeSize
  {
    if treeSize >= 2 {
      var split := LargestPowerOfTwoLessThan(treeSize);
      var c := BitLength(treeSize - 1) - 1;
      BitLengthBounds(treeSize - 1);
      BitLengthOfBounded(treeSize - 1, k);
      Pow2Monotone(c, k - 1);
      if leafIndex < split {
        DepthBound(leafIndex, split, k - 1);
      } else {
        DepthBound(leafIndex - split, treeSize - split, k - 1);
      }
    }
  }

  /** The root that exactly `Depth` siblings, innermost first, give. */
  function RootFromSiblings(h: Hasher, leaf: Digest, leafIndex: nat, treeSize: nat, siblings: seq<Digest>): Digest
    requires leafIndex < treeSize
    requires |siblings| == Depth(leafIndex, treeSize)
    decreases treeSize
  {
    if treeSize == 1 then leaf
    else
      var split := LargestPowerOfTwoLessThan(treeSize);
      var inner, outer := siblings[..|siblings| - 1], siblings[|siblings| - 1];
      if leafIndex < split then
        NodeHash(h, RootFromSiblings(h, leaf, leafIndex, split, inner), outer)
      else
        NodeHash(h, outer, RootFromSiblings(h, leaf, leafIndex - split, treeSize - split, inner))
  }

  lemma DepthStep(leafIndex: nat, treeSize: nat)
    requires leafIndex < treeSize
    ensures treeSize == 1 ==> Depth(leafIndex, treeSize) == 0
    ensures treeSize >= 2 ==>
      var split := LargestPowerOfTwoLessThan(treeSize);
      Depth(leafIndex, treeSize) ==
      1 + if leafIndex < split then Depth(leafIndex, split) else Depth(leafIndex - split, treeSize - split)
  {
    hide LargestPowerOfTwoLessThan;
  }

  lemma {:induction false} RootFromSiblingsSnoc(
    h: Hasher, leaf: Digest, leafIndex: nat, treeSize: nat, inner: seq<Digest>, outer: Digest)
    requires leafIndex < treeSize && treeSize >= 2
    requires |inner| + 1 == Depth(leafIndex, treeSize)
    ensures var split := LargestPowerOfTwoLessThan(treeSize);
            RootFromSiblings(h, leaf, leafIndex, treeSize, inner + [outer]) ==
            if leafIndex < split then NodeHash(h, RootFromSiblings(h, leaf, leafIndex, split, inner), outer)
            else NodeHash(h, outer, RootFromSiblings(h, leaf, leafIndex - split, treeSize - split, inner))
  {
    hide LargestPowerOfTwoLessThan;
    assert (inner + [outer])[..|inner|] == inner;
  }

  lemma RootFromInclusionPathStep(
      h: Hasher, leaf: Digest, leafIndex: nat, treeSize: nat, path: seq<Digest>, offset: nat)
    requires leafIndex < treeSize
    ensures treeSize == 1 ==> RootFromInclusionPath(h, leaf, leafIndex, treeSize, path, offset) == Some((leaf, offset))
    ensures treeSize >= 2 ==>
      var split := LargestPowerOfTwoLessThan(treeSize);
      var inner := if leafIndex < split then RootFromInclusionPath(h, leaf, leafIndex, split, path, offset)
                   else RootFromInclusionPath(h, leaf, leafIndex - split, treeSize - split, path, offset);
      RootFromInclusionPath(h, leaf, leafIndex, treeSize, path, offset) ==
      if inner.None? || inner.value.1 >= |path| then None
      else Some((if leafIndex < split then NodeHash(h, inner.value.0, path[inner.value.1])
                 else NodeHash(h, path[inner.value.1], inner.value.0), inner.value.1 + 1))
  {
    hide LargestPowerOfTwoLessThan;
  }

  lemma {:induction false} RootFromInclusionPathConsumes(
    h: Hasher, leaf: Digest, leafIndex: nat, treeSize: nat, path: seq<Digest>, offset: nat)
    requires leafIndex < treeSize && offset <= |path|
    ensures var end := offset + Depth(leafIndex, treeSize);
            RootFromInclusionPath(h, leaf, leafIndex, treeSize, path, offset) ==
            if end <= |path| then Some((RootFromSiblings(h, leaf, leafIndex, treeSize, path[offset..end]), end))
            else None
    decreases treeSize
  {
    hide *;
    DepthStep(leafIndex, treeSize);
    RootFromInclusionPathStep(h, leaf, leafIndex, treeSize, path, offset);
    if treeSize == 1 {
      RootFromSiblingsOfLeaf(h, leaf);
      assert path[offset..offset] == [];
    } else {
      var split := LargestPowerOfTwoLessThan(treeSize);
      var end := offset + Depth(leafIndex, treeSize);
      if leafIndex < split {
        RootFromInclusionPathConsumes(h, leaf, leafIndex, split, path, offset);
      } else {
        RootFromInclusionPathConsumes(h, leaf, leafIndex - split, treeSize - split, path, offset);
      }
      if end <= |path| {
        assert path[offset..end] == path[offset..end - 1] + [path[end - 1]];
        RootFromSiblingsSnoc(h, leaf, leafIndex, treeSize, path[offset..end - 1], path[end - 1]);
      }
    }
  }

  lemma RootFromSiblingsOfLeaf(h: Hasher, leaf: Digest)
    ensures Depth(0, 1) == 0 && RootFromSiblings(h, leaf, 0, 1, []) == leaf
  {
  }

  /** The audit path is used up from the leaf to the root, or the check fails: too short, too long, or no such leaf. */
  lemma {:induction false} CalculatesAlongSiblings(
    h: Hasher, entryHash: Digest, leafIndex: int, treeSize: int, path: seq<Digest>)
    ensures CalculateRootFromInclusionProof(h, entryHash, leafIndex, treeSize, path) ==
            if 0 <= leafIndex < treeSize && |path| == Depth(leafIndex, treeSize) <= 256 then
              Some(RootFromSiblings(h, LeafHash(h, entryHash), leafIndex, treeSize, path))
            else None
  {
    hide RootFromInclusionPath, Depth, RootFromSiblings;
    if 0 <= leafIndex < treeSize {
      RootFromInclusionPathConsumes(h, LeafHash(h, entryHash), leafIndex, treeSize, path, 0);
      assert path[0..|path|] == path;
    }
  }

  lemma {:induction false} InclusionPathLength(h: Hasher, leaves: seq<Digest>, leafIndex: nat)
    requires leafIndex < |leaves|
    ensures |InclusionPathFromLeaves(h, leaves, leafIndex)| == Depth(leafIndex, |leaves|)
    decreases |leaves|
  {
    hide LargestPowerOfTwoLessThan;
    if |leaves| >= 2 {
      var split := LargestPowerOfTwoLessThan(|leaves|);
      if leafIndex < split {
        InclusionPathLength(h, leaves[..split], leafIndex);
      } else {
        InclusionPathLength(h, leaves[split..], leafIndex - split);
      }
    }
  }

  lemma {:induction false} InclusionPathRebuildsRoot(h: Hasher, leaves: seq<Digest>, leafIndex: nat)
    requires leafIndex < |leaves|
    ensures |InclusionPathFromLeaves(h, leaves, leafIndex)| == Depth(leafIndex, |leaves|)
    ensures RootFromSiblings(h, leaves[leafIndex], leafIndex, |leaves|, InclusionPathFromLeaves(h, leaves, leafIndex))
            == RootFromLeaves(h, leaves)
    decreases |leaves|
  {
    hide *;
    InclusionPathLength(h, leaves, leafIndex);
    RecursionSteps(h, leaves, leafIndex);
    if |leaves| >= 2 {
      var split := LargestPowerOfTwoLessThan(|leaves|);
      var left, right := leaves[..split], leaves[split..];
      if leafIndex < split {
        InclusionPathRebuildsRoot(h, left, leafIndex);
        RootFromSiblingsSnoc(h, leaves[leafIndex], leafIndex, |leaves|,
                             InclusionPathFromLeaves(h, left, leafIndex), RootFromLeaves(h, right));
      } else {
        InclusionPathRebuildsRoot(h, right, leafIndex - split);
        RootFromSiblingsSnoc(h, leaves[leafIndex], leafIndex, |leaves|,
                             InclusionPathFromLeaves(h, right, leafIndex - split), RootFromLeaves(h, left));
      }
    }
  }

  // One unfolding of the two recursions over a list of leaves.
  lemma {:induction false} RecursionSteps(h: Hasher, leaves: seq<Digest>, leafIndex: nat)
    requires leafIndex < |leaves|
    ensures |leaves| == 1 ==>
      RootFromSiblings(h, leaves[0], 0, 1, InclusionPathFromLeaves(h, leaves, leafIndex)) == RootFromLeaves(h, leaves)
    ensures |leaves| >= 2 ==>
      var split := LargestPowerOfTwoLessThan(|leaves|);
      var left, right := leaves[..split], leaves[split..];
      && RootFromLeaves(h, leaves) == NodeHash(h, RootFromLeaves(h, left), RootFromLeaves(h, right))
      && InclusionPathFromLeaves(h, leaves, leafIndex) ==
         if leafIndex < split then InclusionPathFromLeaves(h, left, leafIndex) + [RootFromLeaves(h, right)]
         else InclusionPathFromLeaves(h, right, leafIndex - split) + [RootFromLeaves(h, left)]
  {
    hide LargestPowerOfTwoLessThan;
  }

  /**
   Round trip: the generated audit path of every entry is accepted with the root of the
   list, for every list of at most 2^256 entries (the bound of the 256-hash refusal).
   */
  lemma {:induction false} InclusionRoundTrip(h: Hasher, es: seq<Digest>, leafIndex: nat)
    requires leafIndex < |es| <= Pow2(MAX_PROOF_HASHES)
    ensures GenerateInclusionPath(h, es, leafIndex).Some?
    ensures CalculateRootFromInclusionProof(
              h, es[leafIndex], leafIndex, |es|, GenerateInclusionPath(h, es, leafIndex).value)
            == Some(MerkleRoot(h, es))
  {
    hide Pow2, InclusionPathFromLeaves, RootFromLeaves, LeafHashes, RootFromInclusionPath, Depth, RootFromSiblings;
    var leaves := LeafHashes(h, es);
    var path := InclusionPathFromLeaves(h, leaves, leafIndex);
    InclusionPathRebuildsRoot(h, leaves, leafIndex);
    DepthBound(leafIndex, |es|, MAX_PROOF_HASHES);
    RootFromInclusionPathConsumes(h, LeafHash(h, es[leafIndex]), leafIndex, |es|, path, 0);
    assert path[0..|path|] == path;
  }

  /** The collision behind an accepted inclusion proof that is not the generated one. */
  function InclusionCollision(
    h: Hasher, entryHash: Digest, leafIndex: nat, siblings: seq<Digest>, es: seq<Digest>
  ): Option<Collision>
    requires leafIndex < |es|
    requires |siblings| == Depth(leafIndex, |es|)
    decreases |es|
  {
    if |es| == 1 then
      if entryHash == es[0] then None else Some(Collision(LeafInput(entryHash), LeafInput(es[0])))
    else
      var split := LargestPowerOfTwoLessThan(|es|);
      var inner, outer := siblings[..|siblings| - 1], siblings[|siblings| - 1];
      var genuine := NodeInput(MerkleRoot(h, es[..split]), MerkleRoot(h, es[split..]));
      if leafIndex < split then
        var claimed := NodeInput(RootFromSiblings(h, LeafHash(h, entryHash), leafIndex, split, inner), outer);
        if claimed != genuine then Some(Collision(claimed, genuine))
        else InclusionCollision(h, entryHash, leafIndex, inner, es[..split])
      else
        var claimed := NodeInput(
          outer, RootFromSiblings(h, LeafHash(h, entryHash), leafIndex - split, |es| - split, inner));
        if claimed != genuine then Some(Collision(claimed, genuine))
        else InclusionCollision(h, entryHash, leafIndex - split, inner, es[split..])
  }

  lemma {:induction false} SiblingsBind(
    h: Hasher, entryHash: Digest, leafIndex: nat, siblings: seq<Digest>, es: seq<Digest>)
    requires leafIndex < |es|
    requires |siblings| == Depth(leafIndex, |es|)
    requires RootFromSiblings(h, LeafHash(h, entryHash), leafIndex, |es|, siblings) == MerkleRoot(h, es)
    ensures match InclusionCollision(h, entryHash, leafIndex, siblings, es)
            case Some(c) => IsCollision(h, c)
            case None => entryHash == es[leafIndex]
                         && siblings == InclusionPathFromLeaves(h, LeafHashes(h, es), leafIndex)
    decreases |es|
  {
    hide RootFromLeaves, LargestPowerOfTwoLessThan, LeafHashes, RootFromSiblings, Depth, IsSha256Digest,
        InclusionPathFromLeaves;
    MerkleRootSplits(h, es);
    RecursionSteps(h, LeafHashes(h, es), leafIndex);
    InclusionPathLength(h, LeafHashes(h, es), leafIndex);
    DepthStep(leafIndex, |es|);
    if |es| == 1 {
      RootFromSiblingsOfLeaf(h, LeafHash(h, entryHash));
    } else {
      var split := LargestPowerOfTwoLessThan(|es|);
      var inner, outer := siblings[..|siblings| - 1], siblings[|siblings| - 1];
      LeafHashesSlice(h, es, split);
      assert siblings == inner + [outer];
      RootFromSiblingsSnoc(h, LeafHash(h, entryHash), leafIndex, |es|, inner, outer);
      if leafIndex < split {
        if RootFromSiblings(h, LeafHash(h, entryHash), leafIndex, split, inner) == MerkleRoot(h, es[..split]) {
          SiblingsBind(h, entryHash, leafIndex, inner, es[..split]);
        }
      } else {
        if RootFromSiblings(h, LeafHash(h, entryHash), leafIndex - split, |es| - split, inner)
           == MerkleRoot(h, es[split..]) {
          SiblingsBind(h, entryHash, leafIndex - split, inner, es[split..]);
        }
      }
    }
  }

  /**
   Binding: an accepted (entry, index, path) against the root of `es` has that entry at
   that index and exactly the generated path, or the walk down the tree meets a collision.
   */
  lemma {:induction false} InclusionBinds(
    h: Hasher, entryHash: Digest, leafIndex: nat, path: seq<Digest>, es: seq<Digest>)
    requires leafIndex < |es|
    requires CalculateRootFromInclusionProof(h, entryHash, leafIndex, |es|, path) == Some(MerkleRoot(h, es))
    ensures |path| == Depth(leafIndex, |es|)
    ensures match InclusionCollision(h, entryHash, leafIndex, path, es)
            case Some(c) => IsCollision(h, c)
            case None => entryHash == es[leafIndex] && GenerateInclusionPath(h, es, leafIndex) == Some(path)
  {
    RootFromInclusionPathConsumes(h, LeafHash(h, entryHash), leafIndex, |es|, path, 0);
    assert path[0..|path|] == path;
    SiblingsBind(h, entryHash, leafIndex, path, es);
  }

  lemma Pow2Of17()
    ensures Pow2(17) == 131_072
  {
    assert Pow2(9) == 512;
  }

  /** Audit paths have at most ceil(log2 n) hashes: at most 17 for a log of 100000 entries. */
  lemma {:induction false} InclusionPathBound(h: Hasher, es: seq<Digest>, leafIndex: nat)
    requires leafIndex < |es|
    ensures |GenerateInclusionPath(h, es, leafIndex).value| <= BitLength(|es| - 1)
    ensures |es| <= 100_000 ==> |GenerateInclusionPath(h, es, leafIndex).value| <= 17
  {
    hide Depth, InclusionPathFromLeaves;
    InclusionPathLength(h, LeafHashes(h, es), leafIndex);
    if |es| >= 2 {
      BitLengthBounds(|es| - 1);
    }
    DepthBound(leafIndex, |es|, BitLength(|es| - 1));
    if |es| <= 100_000 {
      Pow2Of17();
      DepthBound(leafIndex, |es|, 17);
    }
  }
}
