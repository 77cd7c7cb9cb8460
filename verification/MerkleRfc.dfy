/**
 The consistency check of section 2.1.4.2 of RFC 9162, run with this system's hashes, and how
 verify_consistency_path differs from it: exactly by not checking the length of the path.
 */
module MerkleRfc {
  import opened Wrappers
  import opened Hashing
  import opened MerkleTree
  import opened MerkleConsistency
  import opened MerkleSoundness

  /** Steps 6 and 7: fail when a hash is left and sn is 0, or when sn is not 0 at the end. */
  function RfcLoop(
    h: Hasher, fn: nat, sn: nat, fr: Digest, sr: Digest, rest: seq<Digest>
  ): Option<(Digest, Digest)>
    decreases |rest|
  {
    if rest == [] then if sn == 0 then Some((fr, sr)) else None
    else if sn == 0 then None
    else if fn % 2 == 1 || fn == sn then
      var (f, s) := StripZeros(fn, sn);
      RfcLoop(h, f / 2, s / 2, NodeHash(h, rest[0], fr), NodeHash(h, rest[0], sr), rest[1..])
    else
      RfcLoop(h, fn / 2, sn / 2, fr, NodeHash(h, sr, rest[0]), rest[1..])
  }

  ghost predicate IsPowerOfTwo(n: nat) {
    exists k: nat :: n == Pow2(k)
  }

  /** The whole check for 1 <= first < second. */
  ghost predicate RfcAccepted(
    h: Hasher, first: nat, second: nat, firstHash: Digest, secondHash: Digest, path: seq<Digest>)
    requires 1 <= first < second
  {
    && path != []
    && var full := if IsPowerOfTwo(first) then [firstHash] + path else path;
       var (fn, sn) := StripOnes(first - 1, second - 1);
       RfcLoop(h, fn, sn, full[0], full[0], full[1..]) == Some((firstHash, secondHash))
  }

  /** How many hashes the two sizes call for. */
  ghost function ProofLength(oldSize: nat, newSize: nat): nat
    requires 1 <= oldSize < newSize
  {
    |Sides(oldSize, newSize)| + if IsPowerOfTwo(oldSize) then 0 else 1
  }

  /** On exact bits the loop fails unless there is one hash per side, and otherwise replays them. */
  lemma {:induction false} RfcLoopOfExact(
    h: Hasher, f: nat, s: nat, sides: seq<Side>, fr: Digest, sr: Digest, rest: seq<Digest>)
    requires Exact(f, s, sides)
    ensures RfcLoop(h, f, s, fr, sr, rest) ==
            if |rest| == |sides| then Some(Replay(h, Walk(f, s, |rest|), fr, sr, rest)) else None
    decreases |rest|
  {
    hide Walk, Replay, NodeHash, StripZeros;
    if rest == [] {
      ReplayEnd(h, f, s, fr, sr);
    } else if sides != [] {
      ReplayTurn(h, f, s, fr, sr, rest);
      var (f', s') := StepBits(f, s);
      if StepSide(f, s).OnLeft? {
        RfcLoopOfExact(h, f', s', sides[1..], NodeHash(h, rest[0], fr), NodeHash(h, rest[0], sr), rest[1..]);
      } else {
        RfcLoopOfExact(h, f', s', sides[1..], fr, NodeHash(h, sr, rest[0]), rest[1..]);
      }
    }
  }

  lemma {:induction false} StripsToZeroAtPowers(oldSize: nat, newSize: nat)
    requires oldSize >= 1 && newSize >= 1
    ensures StripOnes(oldSize - 1, newSize - 1).0 == 0 <==> IsPowerOfTwo(oldSize)
  {
    hide StripOnes, Pow2;
    if StripOnes(oldSize - 1, newSize - 1).0 == 0 {
      var k := StripsToZeroIsPower(oldSize - 1, newSize - 1);
    }
    forall k: nat | oldSize == Pow2(k) ensures StripOnes(oldSize - 1, newSize - 1).0 == 0 {
      PowerStripsToZero(k, newSize - 1);
    }
  }

  /** Every generated path has the length the sizes call for. */
  lemma {:induction false} GeneratedLength(h: Hasher, es: seq<Digest>, oldSize: nat, newSize: nat)
    requires 1 <= oldSize < newSize <= |es|
    ensures GenerateConsistencyPath(h, es, oldSize, newSize).Some?
    ensures |GenerateConsistencyPath(h, es, oldSize, newSize).value| == ProofLength(oldSize, newSize)
  {
    hide StripOnes, Exact, Sides, ConsistencySubproof, Innermost, Siblings, LeafHashes, IsPowerOfTwo;
    var leaves := LeafHashes(h, es[..newSize]);
    var (f, s) := StripOnes(oldSize - 1, newSize - 1);
    WalkMatchesRecursion(oldSize, newSize);
    ExactAllRight(f, s, Sides(oldSize, newSize));
    SubproofShape(h, oldSize, leaves, true);
    StripsToZeroAtPowers(oldSize, newSize);
  }

  /**
   What the missing checks amount to.  For all digests, genuine roots or not, the standard accepts
   a path of at most 256 hashes exactly when the code does and the path has the length that the
   two sizes call for.
   */
  lemma {:induction false} RfcIsTheLengthCheck(
    h: Hasher, oldSize: nat, newSize: nat, oldRoot: Digest, newRoot: Digest, path: seq<Digest>)
    requires 1 <= oldSize < newSize
    ensures RfcAccepted(h, oldSize, newSize, oldRoot, newRoot, path) && |path| <= MAX_PROOF_HASHES
            <==>
            ConsistencyAccepted(h, oldSize, newSize, oldRoot, newRoot, path)
            && |path| == ProofLength(oldSize, newSize)
  {
    hide StripOnes, Exact, Sides, RfcLoop, Replay, Walk, IsPowerOfTwo, IsSha256Digest;
    var (f, s) := StripOnes(oldSize - 1, newSize - 1);
    WalkMatchesRecursion(oldSize, newSize);
    StripsToZeroAtPowers(oldSize, newSize);
    SidesNotEmpty(oldSize, newSize);
    var seed: Digest := if f == 0 || path == [] then oldRoot else path[0];
    var siblings: seq<Digest> := if f == 0 || path == [] then path else path[1..];
    RfcLoopOfExact(h, f, s, Sides(oldSize, newSize), seed, seed, siblings);
    assert ([oldRoot] + path)[1..] == path;
  }

  lemma SidesNotEmpty(size: nat, total: nat)
    requires 1 <= size < total
    ensures Sides(size, total) != []
  {
    hide LargestPowerOfTwoLessThan;
  }

  /** One of the inputs on which they differ: one hash too few for a size that is no power of two. */
  lemma {:induction false} ShortPathAccepted(h: Hasher, root: Digest)
    ensures ConsistencyAccepted(h, 3, 4, root, root, [root]) && !RfcAccepted(h, 3, 4, root, root, [root])
  {
    hide IsSha256Digest;
    assert StripOnes(2, 3) == (2, 3);
    ReplayEnd(h, 2, 3, root, root);
    StripsToZeroAtPowers(3, 4);
    var one: seq<Digest> := [root];
    assert one[1..] == [];
    assert RfcLoop(h, 2, 3, root, root, []) == None;
  }
}
