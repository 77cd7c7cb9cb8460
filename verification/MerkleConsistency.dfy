/**
 Consistency proofs of app/transparency_merkle.py.  Proofs are generated by a top-down
 recursion over the list (section 2.1.2 of RFC 6962) and checked by a bottom-up loop over
 the bits of the two last leaf indexes (section 2.1.4.2 of RFC 9162).  This module shows
 that the two agree for every pair of sizes, so that every generated proof is accepted.
 */
module MerkleConsistency {
  import opened Wrappers
  import opened Hashing
  import opened MerkleTree

  // ---------------------------------------------------------------- generation

  function ConsistencySubproof(h: Hasher, size: nat, leaves: seq<Digest>, completeSubtree: bool): seq<Digest>
    requires 1 <= size <= |leaves|
    decreases |leaves|
  {
    if size == |leaves| then
      if completeSubtree then [] else [RootFromLeaves(h, leaves)]
    else
      var split := LargestPowerOfTwoLessThan(|leaves|);
      if size <= split then
        ConsistencySubproof(h, size, leaves[..split], completeSubtree) + [RootFromLeaves(h, leaves[split..])]
      else
        ConsistencySubproof(h, size - split, leaves[split..], false) + [RootFromLeaves(h, leaves[..split])]
  }

  function GenerateConsistencyPath(
    h: Hasher, entryHashes: seq<Digest>, oldSize: int, newSize: int
  ): Option<seq<Digest>> {
    if oldSize < 1 || newSize < oldSize || newSize > |entryHashes| then None
    else if oldSize == newSize then Some([])
    else Some(ConsistencySubproof(h, oldSize, LeafHashes(h, entryHashes[..newSize]), true))
  }

  // ---------------------------------------------------------------- the bit walk

  /** On which side of the running hashes the next proof hash goes. */
  datatype Side = OnLeft | OnRight

  /** `while fn & 1: fn >>= 1; sn >>= 1` */
  function StripOnes(f: nat, s: nat): (nat, nat) {
    if f % 2 == 1 then StripOnes(f / 2, s / 2) else (f, s)
  }

  /** `while fn and not (fn & 1): fn >>= 1; sn >>= 1` */
  function StripZeros(f: nat, s: nat): (nat, nat) {
    if f != 0 && f % 2 == 0 then StripZeros(f / 2, s / 2) else (f, s)
  }

  function StepSide(f: nat, s: nat): Side {
    if f % 2 == 1 || f == s then OnLeft else OnRight
  }

  function StepBits(f: nat, s: nat): (nat, nat) {
    var (f', s') := if StepSide(f, s).OnLeft? then StripZeros(f, s) else (f, s);
    (f' / 2, s' / 2)
  }

  /** The sides the loop takes for `count` proof hashes. */
  function Walk(f: nat, s: nat, count: nat): (sides: seq<Side>)
    ensures |sides| == count
    decreases count
  {
    if count == 0 then []
    else var (f', s') := StepBits(f, s); [StepSide(f, s)] + Walk(f', s', count - 1)
  }

  /** The old and the new running hash after folding the proof hashes in, innermost first. */
  function Replay(
      h: Hasher, sides: seq<Side>, oldHash: Digest, newHash: Digest, siblings: seq<Digest>
  ): (Digest, Digest)
    requires |sides| == |siblings|
  {
    if sides == [] then (oldHash, newHash)
    else if sides[0].OnLeft? then
      Replay(h, sides[1..], NodeHash(h, siblings[0], oldHash), NodeHash(h, siblings[0], newHash), siblings[1..])
    else
      Replay(h, sides[1..], oldHash, NodeHash(h, newHash, siblings[0]), siblings[1..])
  }

  /** What verify_consistency_path decides; VerifyConsistencyPath below computes it by its loop. */
  predicate ConsistencyAccepted(
    h: Hasher, oldSize: int, newSize: int, oldRoot: string, newRoot: string, path: seq<string>)
  {
    && 1 <= oldSize <= newSize
    && IsSha256Digest(oldRoot) && IsSha256Digest(newRoot)
    && |path| <= MAX_PROOF_HASHES
    && (forall i | 0 <= i < |path| :: IsSha256Digest(path[i]))
    && if oldSize == newSize then oldRoot == newRoot && path == []
       else
         var (f, s) := StripOnes(oldSize - 1, newSize - 1);
         && (f == 0 || path != [])
         && var seed: Digest := if f == 0 then oldRoot else path[0];
            var siblings: seq<Digest> := if f == 0 then path else path[1..];
            Replay(h, Walk(f, s, |siblings|), seed, seed, siblings) == (oldRoot, newRoot)
  }

  // One turn of the verifier's loop, before its hashes and bits are updated.
  lemma ReplayTurn(h: Hasher, f: nat, s: nat, oldHash: Digest, newHash: Digest, rest: seq<Digest>)
    requires rest != []
    ensures var (f', s') := StepBits(f, s);
            Replay(h, Walk(f, s, |rest|), oldHash, newHash, rest) ==
            if StepSide(f, s).OnLeft? then
              Replay(h, Walk(f', s', |rest| - 1), NodeHash(h, rest[0], oldHash), NodeHash(h, rest[0], newHash),
                  rest[1..])
            else
              Replay(h, Walk(f', s', |rest| - 1), oldHash, NodeHash(h, newHash, rest[0]), rest[1..])
  {
    hide StepBits, StepSide, NodeHash;
    var (f', s') := StepBits(f, s);
    var later := [StepSide(f, s)] + Walk(f', s', |rest| - 1);
    assert Walk(f, s, |rest|) == later && later[1..] == Walk(f', s', |rest| - 1);
  }

  method VerifyConsistencyPath(
    h: Hasher, oldSize: int, newSize: int, oldRoot: string, newRoot: string, path: seq<string>
  ) returns (ok: bool)
    ensures ok <==> ConsistencyAccepted(h, oldSize, newSize, oldRoot, newRoot, path)
  {
    hide Walk, Replay, NodeHash;
    if oldSize < 1 || newSize < oldSize { return false; }
    if !IsSha256Digest(oldRoot) || !IsSha256Digest(newRoot) { return false; }
    if |path| > MAX_PROOF_HASHES || exists i | 0 <= i < |path| :: !IsSha256Digest(path[i]) { return false; }
    if oldSize == newSize { return oldRoot == newRoot && path == []; }
    var proof: seq<Digest> := path;
    var fn, sn := oldSize - 1, newSize - 1;
    while fn % 2 == 1
      invariant fn >= 0 && sn >= 0
      invariant StripOnes(fn, sn) == StripOnes(oldSize - 1, newSize - 1)
      decreases fn
    {
      fn, sn := fn / 2, sn / 2;
    }
    var oldHash: Digest, newHash: Digest, index: nat;
    if fn == 0 {
      oldHash, newHash, index := oldRoot, oldRoot, 0;
    } else {
      if path == [] { return false; }
      oldHash, newHash, index := proof[0], proof[0], 1;
    }
    ghost var goal := Replay(h, Walk(fn, sn, |proof| - index), oldHash, newHash, proof[index..]);
    while index < |proof|
      invariant fn >= 0 && sn >= 0
      invariant index <= |proof|
      invariant Replay(h, Walk(fn, sn, |proof| - index), oldHash, newHash, proof[index..]) == goal
    {
      var proofHash := proof[index];
      ReplayTurn(h, fn, sn, oldHash, newHash, proof[index..]);
      assert proof[index..][0] == proofHash && proof[index..][1..] == proof[index + 1..];
      if fn % 2 == 1 || fn == sn {
        oldHash := NodeHash(h, proofHash, oldHash);
        newHash := NodeHash(h, proofHash, newHash);
        ghost var f, s := fn, sn;
        while fn != 0 && fn % 2 == 0
          invariant fn >= 0 && sn >= 0
          invariant StripZeros(fn, sn) == StripZeros(f, s)
          decreases fn
        {
          fn, sn := fn / 2, sn / 2;
        }
      } else {
        newHash := NodeHash(h, newHash, proofHash);
      }
      fn, sn := fn / 2, sn / 2;
      index := index + 1;
    }
    ReplayEnd(h, fn, sn, oldHash, newHash);
    return oldHash == oldRoot && newHash == newRoot;
  }

  lemma ReplayEnd(h: Hasher, f: nat, s: nat, oldHash: Digest, newHash: Digest)
    ensures Replay(h, Walk(f, s, 0), oldHash, newHash, []) == (oldHash, newHash)
  {
  }

  // ---------------------------------------------------------------- sides of the recursion

  /** The sides the generator's recursion takes, innermost first. */
  function Sides(size: nat, total: nat): seq<Side>
    requires 1 <= size <= total
    decreases total
  {
    if size == total then []
    else
      var split := LargestPowerOfTwoLessThan(total);
      if size <= split then Sides(size, split) + [OnRight] else Sides(size - split, total - split) + [OnLeft]
  }

  /** The walk over the bits takes exactly these sides and then has run out of bits. */
  predicate Exact(f: nat, s: nat, sides: seq<Side>)
    decreases |sides|
  {
    if sides == [] then f == 0 && s == 0
    else
      && s > 0
      && StepSide(f, s) == sides[0]
      && var (f', s') := StepBits(f, s); Exact(f', s', sides[1..])
  }

  // A walk inside the left, perfect subtree goes the same way in the whole tree and ends one level below its root.
  lemma {:induction false} ExactInLeftSubtree(f: nat, q: nat, s: nat, sides: seq<Side>)
    requires f < Pow2(q) <= s < 2 * Pow2(q)
    requires Exact(f, Pow2(q) - 1, sides)
    ensures Exact(f, s, sides + [OnRight])
    decreases |sides|
  {
    if sides == [] {
      assert s == 1;
      assert Exact(0, 0, []);
    } else {
      assert q >= 1;
      assert StripZeros(f, s) == (f, s) || f % 2 == 0;
      ExactInLeftSubtree(f / 2, q - 1, s / 2, sides[1..]);
      assert (sides + [OnRight])[1..] == sides[1..] + [OnRight];
    }
  }

  // Shifting under a top bit at position q moves that bit to position q - 1.
  lemma {:induction false} ShiftUnderTopBit(f: nat, q: nat)
    requires q >= 1
    ensures Pow2(q) == 2 * Pow2(q - 1)
    ensures (Pow2(q) + f) / 2 == Pow2(q - 1) + f / 2
    ensures (Pow2(q) + f) % 2 == f % 2
  {
    assert Pow2(q) == 2 * Pow2(q - 1);
    hide Pow2;
  }

  lemma {:induction false} StripZerosUnderTopBit(f: nat, s: nat, q: nat) returns (r: nat)
    requires 0 < f <= s < Pow2(q)
    ensures r >= 1
    ensures var (f', s') := StripZeros(f, s);
            && 0 < f' <= s' < Pow2(r)
            && StripZeros(Pow2(q) + f, Pow2(q) + s) == (Pow2(r) + f', Pow2(r) + s')
  {
    assert q >= 1;
    hide Pow2;
    ShiftUnderTopBit(f, q);
    ShiftUnderTopBit(s, q);
    if f % 2 == 0 {
      r := StripZerosUnderTopBit(f / 2, s / 2, q - 1);
    } else {
      r := q;
    }
  }

  lemma {:induction false} StripZerosOfPowerOfTwo(q: nat)
    ensures StripZeros(Pow2(q), Pow2(q)) == (1, 1)
  {
    if q > 0 {
      StripZerosOfPowerOfTwo(q - 1);
    }
  }

  // One step under a common top bit: same side, and the top bit only moves down.
  lemma {:induction false} StepUnderTopBit(f: nat, s: nat, q: nat) returns (r: nat)
    requires f <= s < Pow2(q) && s > 0
    ensures StepSide(Pow2(q) + f, Pow2(q) + s) == StepSide(f, s)
    ensures var (f', s') := StepBits(f, s);
            f' <= s' < Pow2(r) && StepBits(Pow2(q) + f, Pow2(q) + s) == (Pow2(r) + f', Pow2(r) + s')
  {
    assert q >= 1;
    hide Pow2, StripZeros;
    ShiftUnderTopBit(f, q);
    ShiftUnderTopBit(s, q);
    if StepSide(f, s).OnLeft? {
      assert f > 0;
      var t := StripZerosUnderTopBit(f, s, q);
      var (f', s') := StripZeros(f, s);
      ShiftUnderTopBit(f', t);
      ShiftUnderTopBit(s', t);
      r := t - 1;
    } else {
      r := q - 1;
    }
  }

  // A walk inside the right subtree goes the same way in the whole tree, whose indexes have one more top bit.
  lemma {:induction false} ExactInRightSubtree(f: nat, s: nat, q: nat, sides: seq<Side>)
    requires f <= s < Pow2(q)
    requires Exact(f, s, sides)
    ensures Exact(Pow2(q) + f, Pow2(q) + s, sides + [OnLeft])
    decreases |sides|
  {
    hide Pow2, StepBits, StepSide;
    if sides == [] {
      ExactAtRoot(q);
    } else {
      var (f', s') := StepBits(f, s);
      var r := StepUnderTopBit(f, s, q);
      ExactInRightSubtree(f', s', r, sides[1..]);
      assert (sides + [OnLeft])[1..] == sides[1..] + [OnLeft];
    }
  }

  lemma ExactAtRoot(q: nat)
    ensures Exact(Pow2(q), Pow2(q), [] + [OnLeft])
  {
    StripZerosOfPowerOfTwo(q);
    assert Exact(0, 0, []);
  }

  lemma {:induction false} StripOnesInLeftSubtree(f: nat, q: nat, s: nat) returns (r: nat)
    requires f < Pow2(q) <= s < 2 * Pow2(q)
    ensures var (f', s') := StripOnes(f, s);
            f' < Pow2(r) <= s' < 2 * Pow2(r) && StripOnes(f, Pow2(q) - 1) == (f', Pow2(r) - 1)
  {
    if f % 2 == 1 {
      r := StripOnesInLeftSubtree(f / 2, q - 1, s / 2);
    } else {
      r := q;
    }
  }

  lemma {:induction false} StripOnesInRightSubtree(f: nat, s: nat, q: nat) returns (r: nat)
    requires f < s < Pow2(q)
    ensures var (f', s') := StripOnes(f, s);
            f' < s' < Pow2(r) && StripOnes(Pow2(q) + f, Pow2(q) + s) == (Pow2(r) + f', Pow2(r) + s')
  {
    assert q >= 1;
    if f % 2 == 1 {
      r := StripOnesInRightSubtree(f / 2, s / 2, q - 1);
    } else {
      r := q;
    }
  }

  lemma {:induction false} StripOnesOfAllOnes(q: nat)
    ensures StripOnes(Pow2(q) - 1, Pow2(q) - 1) == (0, 0)
  {
    if q > 0 {
      StripOnesOfAllOnes(q - 1);
    }
  }

  // The split of a list of `total` leaves is the top bit of its last index.
  lemma {:induction false} SplitBits(total: nat) returns (q: nat)
    requires total >= 2
    ensures LargestPowerOfTwoLessThan(total) == Pow2(q)
    ensures Pow2(q) <= total - 1 < 2 * Pow2(q)
  {
    q := BitLength(total - 1) - 1;
    BitLengthBounds(total - 1);
  }

  /** Bits and recursion agree: for all sizes the loop walks the sides of the recursion, exactly. */
  lemma {:induction false} WalkMatchesRecursion(size: nat, total: nat)
    requires 1 <= size < total
    ensures var (f, s) := StripOnes(size - 1, total - 1); Exact(f, s, Sides(size, total))
    decreases total
  {
    hide LargestPowerOfTwoLessThan, Pow2, StripOnes, Exact;
    var q := SplitBits(total);
    var split := LargestPowerOfTwoLessThan(total);
    if size <= split {
      var r := StripOnesInLeftSubtree(size - 1, q, total - 1);
      var (f, s) := StripOnes(size - 1, total - 1);
      if size == split {
        StripOnesOfAllOnes(q);
        ExactAtEnd();
      } else {
        WalkMatchesRecursion(size, split);
      }
      ExactInLeftSubtree(f, r, s, Sides(size, split));
    } else {
      WalkMatchesRecursion(size - split, total - split);
      var r := StripOnesInRightSubtree(size - split - 1, total - split - 1, q);
      var (f', s') := StripOnes(size - split - 1, total - split - 1);
      ExactInRightSubtree(f', s', r, Sides(size - split, total - split));
    }
  }

  lemma ExactAtEnd()
    ensures Exact(0, 0, [])
  {
  }

  // ---------------------------------------------------------------- completeness

  function Lefts(count: nat): (sides: seq<Side>)
    ensures |sides| == count && forall i | 0 <= i < count :: sides[i].OnLeft?
  {
    seq(count, _ => OnLeft)
  }

  lemma {:induction false} WalkAtEnd(count: nat)
    ensures Walk(0, 0, count) == Lefts(count)
  {
    if count > 0 {
      assert StripZeros(0, 0) == (0, 0);
      WalkAtEnd(count - 1);
    }
  }

  // The loop never checks that it has run out of bits: past the end it keeps going left.
  lemma {:induction false} WalkOfExact(f: nat, s: nat, sides: seq<Side>, count: nat)
    requires Exact(f, s, sides)
    ensures Walk(f, s, count) ==
            if count <= |sides| then sides[..count] else sides + Lefts(count - |sides|)
    decreases |sides|
  {
    hide StepBits, StepSide;
    if sides == [] {
      WalkAtEnd(count);
    } else if count > 0 {
      var (f', s') := StepBits(f, s);
      WalkOfExact(f', s', sides[1..], count - 1);
    }
  }

  predicate AllRight(sides: seq<Side>) {
    forall i | 0 <= i < |sides| :: sides[i].OnRight?
  }

  lemma {:induction false} ExactAllRight(f: nat, s: nat, sides: seq<Side>)
    requires Exact(f, s, sides)
    ensures f == 0 <==> AllRight(sides)
    decreases |sides|
  {
    if sides != [] {
      var (f', s') := StepBits(f, s);
      ExactAllRight(f', s', sides[1..]);
      assert AllRight(sides) <==> sides[0].OnRight? && AllRight(sides[1..]) by {
        assert forall i | 1 <= i < |sides| :: sides[i] == sides[1..][i - 1];
        assert forall i | 0 <= i < |sides[1..]| :: sides[1..][i] == sides[i + 1];
      }
    }
  }

  /** The digest the generated proof starts from: the root of the last whole subtree of the old list. */
  function Innermost(h: Hasher, size: nat, leaves: seq<Digest>): Digest
    requires 1 <= size <= |leaves|
    decreases |leaves|
  {
    if size == |leaves| then RootFromLeaves(h, leaves)
    else
      var split := LargestPowerOfTwoLessThan(|leaves|);
      if size <= split then Innermost(h, size, leaves[..split]) else Innermost(h, size - split, leaves[split..])
  }

  /** The hashes of the generated proof beside the running ones, innermost first. */
  function Siblings(h: Hasher, size: nat, leaves: seq<Digest>): (siblings: seq<Digest>)
    requires 1 <= size <= |leaves|
    ensures |siblings| == |Sides(size, |leaves|)|
    decreases |leaves|
  {
    if size == |leaves| then []
    else
      var split := LargestPowerOfTwoLessThan(|leaves|);
      if size <= split then Siblings(h, size, leaves[..split]) + [RootFromLeaves(h, leaves[split..])]
      else Siblings(h, size - split, leaves[split..]) + [RootFromLeaves(h, leaves[..split])]
  }

  lemma {:induction false} SubproofShape(h: Hasher, size: nat, leaves: seq<Digest>, complete: bool)
    requires 1 <= size <= |leaves|
    ensures ConsistencySubproof(h, size, leaves, complete) ==
            (if complete && AllRight(Sides(size, |leaves|)) then [] else [Innermost(h, size, leaves)])
            + Siblings(h, size, leaves)
    decreases |leaves|
  {
    hide LargestPowerOfTwoLessThan, RootFromLeaves;
    if size < |leaves| {
      var split := LargestPowerOfTwoLessThan(|leaves|);
      if size <= split {
        SubproofShape(h, size, leaves[..split], complete);
        AllRightSnoc(Sides(size, split), OnRight);
      } else {
        SubproofShape(h, size - split, leaves[split..], false);
        AllRightSnoc(Sides(size - split, |leaves| - split), OnLeft);
      }
    }
  }

  lemma AllRightSnoc(sides: seq<Side>, last: Side)
    ensures AllRight(sides + [last]) <==> AllRight(sides) && last.OnRight?
  {
    var all := sides + [last];
    assert forall i | 0 <= i < |sides| :: all[i] == sides[i];
    assert all[|sides|] == last;
  }

  lemma {:induction false} ReplaySnoc(
    h: Hasher, sides: seq<Side>, last: Side, oldHash: Digest, newHash: Digest, siblings: seq<Digest>, outer: Digest)
    requires |sides| == |siblings|
    ensures var (o, n) := Replay(h, sides, oldHash, newHash, siblings);
            Replay(h, sides + [last], oldHash, newHash, siblings + [outer]) ==
            if last.OnLeft? then (NodeHash(h, outer, o), NodeHash(h, outer, n)) else (o, NodeHash(h, n, outer))
    decreases |sides|
  {
    hide NodeHash;
    if sides == [] {
      assert Replay(h, [], oldHash, newHash, []) == (oldHash, newHash);
    } else {
      assert (sides + [last])[1..] == sides[1..] + [last];
      assert (siblings + [outer])[1..] == siblings[1..] + [outer];
      if sides[0].OnLeft? {
        ReplaySnoc(h, sides[1..], last, NodeHash(h, siblings[0], oldHash), NodeHash(h, siblings[0], newHash),
                   siblings[1..], outer);
      } else {
        ReplaySnoc(h, sides[1..], last, oldHash, NodeHash(h, newHash, siblings[0]), siblings[1..], outer);
      }
    }
  }

  // A list cut inside the right half of its tree has the same split as the whole list.
  lemma {:induction false} SplitOfCut(size: nat, total: nat)
    requires total >= 2 && LargestPowerOfTwoLessThan(total) < size <= total
    ensures size >= 2 && LargestPowerOfTwoLessThan(size) == LargestPowerOfTwoLessThan(total)
  {
    SplitIsUnique(size, BitLength(total - 1) - 1);
  }

  lemma {:induction false} RootStep(h: Hasher, leaves: seq<Digest>)
    requires |leaves| >= 2
    ensures var split := LargestPowerOfTwoLessThan(|leaves|);
            RootFromLeaves(h, leaves) == NodeHash(h, RootFromLeaves(h, leaves[..split]),
                RootFromLeaves(h, leaves[split..]))
  {
    hide LargestPowerOfTwoLessThan;
  }

  lemma {:induction false} ReplayRebuildsRoots(h: Hasher, size: nat, leaves: seq<Digest>)
    requires 1 <= size <= |leaves|
    ensures Replay(h, Sides(size, |leaves|), Innermost(h, size, leaves), Innermost(h, size, leaves),
                   Siblings(h, size, leaves))
            == (RootFromLeaves(h, leaves[..size]), RootFromLeaves(h, leaves))
    decreases |leaves|
  {
    hide LargestPowerOfTwoLessThan, RootFromLeaves, NodeHash;
    if size == |leaves| {
      assert leaves[..size] == leaves;
    } else {
      hide Replay;
      var split := LargestPowerOfTwoLessThan(|leaves|);
      var left, right := leaves[..split], leaves[split..];
      RootStep(h, leaves);
      var seed := Innermost(h, size, leaves);
      if size <= split {
        ReplayRebuildsRoots(h, size, left);
        ReplaySnoc(h, Sides(size, split), OnRight, seed, seed, Siblings(h, size, left), RootFromLeaves(h, right));
        assert left[..size] == leaves[..size];
      } else {
        ReplayRebuildsRoots(h, size - split, right);
        ReplaySnoc(h, Sides(size - split, |leaves| - split), OnLeft, seed, seed,
                   Siblings(h, size - split, right), RootFromLeaves(h, left));
        SplitOfCut(size, |leaves|);
        RootStep(h, leaves[..size]);
        assert leaves[..size][..split] == left;
        assert leaves[..size][split..] == right[..size - split];
      }
    }
  }

  lemma {:induction false} SidesBound(size: nat, total: nat, k: nat)
    requires 1 <= size <= total <= Pow2(k)
    ensures |Sides(size, total)| <= k
    decreases total
  {
    if size < total {
      var q := SplitBits(total);
      if q >= k {
        Pow2Monotone(k, q);
      }
      hide LargestPowerOfTwoLessThan;
      var split := LargestPowerOfTwoLessThan(total);
      Pow2Monotone(q, k - 1);
      if size <= split {
        SidesBound(size, split, k - 1);
      } else {
        SidesBound(size - split, total - split, k - 1);
      }
    }
  }

  /** A consistency path has at most ceil(log2 n) + 1 hashes: at most 18 for a log of 100000 entries. */
  lemma {:induction false} ConsistencyPathBound(h: Hasher, es: seq<Digest>, oldSize: nat, newSize: nat, k: nat)
    requires 1 <= oldSize <= newSize <= |es|
    requires newSize <= Pow2(k)
    ensures |GenerateConsistencyPath(h, es, oldSize, newSize).value| <= k + 1
    ensures newSize <= 100_000 ==> |GenerateConsistencyPath(h, es, oldSize, newSize).value| <= 18
  {
    var leaves := LeafHashes(h, es[..newSize]);
    SubproofShape(h, oldSize, leaves, true);
    SidesBound(oldSize, newSize, k);
    if newSize <= 100_000 {
      Pow2Of17();
      SidesBound(oldSize, newSize, 17);
    }
  }

  /**
   Completeness: for every list and all 1 <= m <= n the generated path is accepted with the
   roots of the first m and the first n entries, unless it has more than 256 hashes.
   */
  lemma {:induction false} GeneratedPathAccepted(h: Hasher, es: seq<Digest>, oldSize: nat, newSize: nat)
    requires 1 <= oldSize <= newSize <= |es|
    ensures GenerateConsistencyPath(h, es, oldSize, newSize).Some?
    ensures var path := GenerateConsistencyPath(h, es, oldSize, newSize).value;
            ConsistencyAccepted(h, oldSize, newSize, MerkleRoot(h, es[..oldSize]), MerkleRoot(h, es[..newSize]), path)
            <==> |path| <= MAX_PROOF_HASHES
  {
    hide StripOnes, Exact, Replay, Walk, RootFromLeaves, ConsistencySubproof, LeafHashes;
    if oldSize < newSize {
      var leaves := LeafHashes(h, es[..newSize]);
      LeafHashesSlice(h, es[..newSize], oldSize);
      assert es[..newSize][..oldSize] == es[..oldSize];
      var (f, s) := StripOnes(oldSize - 1, newSize - 1);
      var sides := Sides(oldSize, newSize);
      WalkMatchesRecursion(oldSize, newSize);
      WalkOfExact(f, s, sides, |sides|);
      assert sides[..|sides|] == sides;
      ExactAllRight(f, s, sides);
      SubproofShape(h, oldSize, leaves, true);
      ReplayRebuildsRoots(h, oldSize, leaves);
      var seed, siblings := Innermost(h, oldSize, leaves), Siblings(h, oldSize, leaves);
      var path := GenerateConsistencyPath(h, es, oldSize, newSize).value;
      if f == 0 {
        ReplayAllRight(h, sides, seed, seed, siblings);
        assert path == siblings;
      } else {
        assert path == [seed] + siblings && path[1..] == siblings;
      }
    }
  }

  // Going right only, the old hash stays what it was.
  lemma {:induction false} ReplayAllRight(
    h: Hasher, sides: seq<Side>, oldHash: Digest, newHash: Digest, siblings: seq<Digest>)
    requires |sides| == |siblings| && AllRight(sides)
    ensures Replay(h, sides, oldHash, newHash, siblings).0 == oldHash
    decreases |sides|
  {
    if sides != [] {
      assert AllRight(sides[1..]);
      ReplayAllRight(h, sides[1..], oldHash, NodeHash(h, newHash, siblings[0]), siblings[1..]);
    }
  }

  /** Completeness on all sizes up to 2^255, where the 256-hash refusal cannot apply. */
  lemma {:induction false} ConsistencyCompleteness(h: Hasher, es: seq<Digest>, oldSize: nat, newSize: nat)
    requires 1 <= oldSize <= newSize <= |es|
    requires newSize <= Pow2(MAX_PROOF_HASHES - 1)
    ensures GenerateConsistencyPath(h, es, oldSize, newSize).Some?
    ensures ConsistencyAccepted(h, oldSize, newSize, MerkleRoot(h, es[..oldSize]), MerkleRoot(h, es[..newSize]),
                                GenerateConsistencyPath(h, es, oldSize, newSize).value)
  {
    hide Pow2, ConsistencyAccepted, ConsistencySubproof;
    ConsistencyPathBound(h, es, oldSize, newSize, MAX_PROOF_HASHES - 1);
    GeneratedPathAccepted(h, es, oldSize, newSize);
  }
}
