/**
 What acceptance of a consistency proof means when both roots are roots of lists of the
 stated sizes.  The loop of verify_consistency_path does not check that the proof has the
 length the two sizes call for (steps 6a and 7 of section 2.1.4.2 of RFC 9162); this module
 shows that against genuine roots nothing is lost by that.
 */
module MerkleSoundness {
  import opened Wrappers
  import opened Hashing
  import opened MerkleTree
  import opened MerkleConsistency

  /**
   Peels an accepted proof from the outside and compares each level with the two genuine
   trees: two distinct inputs hashed to one digest, or nothing when all levels agree.
   */
  function ReplayCollision(
    h: Hasher, sides: seq<Side>, seed: Digest, siblings: seq<Digest>, olds: seq<Digest>, news: seq<Digest>
  ): Option<Collision>
    requires |sides| == |siblings|
    requires |olds| >= 1 && |news| >= 1
    decreases |sides|
  {
    if sides == [] then RootCollision(h, olds, news)
    else
      var last := |sides| - 1;
      var (o, n) := Replay(h, sides[..last], seed, seed, siblings[..last]);
      var outer := siblings[last];
      if sides[last].OnRight? then
        match CompareNode(h, NodeInput(n, outer), news)
        case Some(c) => Some(c)
        case None =>
          if |news| == 1 then None
          else ReplayCollision(h, sides[..last], seed, siblings[..last], olds,
                               news[..LargestPowerOfTwoLessThan(|news|)])
      else
        match CompareNode(h, NodeInput(outer, o), olds)
        case Some(c) => Some(c)
        case None =>
          match CompareNode(h, NodeInput(outer, n), news)
          case Some(c) => Some(c)
          case None =>
            if |olds| == 1 || |news| == 1 then None
            else
              var j, k := LargestPowerOfTwoLessThan(|olds|), LargestPowerOfTwoLessThan(|news|);
              match RootCollision(h, olds[..j], news[..k])
              case Some(c) => Some(c)
              case None => ReplayCollision(h, sides[..last], seed, siblings[..last], olds[j..], news[k..])
  }

  /** The top input of a genuine tree against a node input that claims to be it. */
  function CompareNode(h: Hasher, claimed: HashInput, es: seq<Digest>): Option<Collision>
    requires claimed.NodeInput? && |es| >= 1
  {
    if |es| == 1 then Some(Collision(claimed, LeafInput(es[0])))
    else
      var k := LargestPowerOfTwoLessThan(|es|);
      var genuine := NodeInput(MerkleRoot(h, es[..k]), MerkleRoot(h, es[k..]));
      if claimed == genuine then None else Some(Collision(claimed, genuine))
  }

  lemma {:induction false} CompareNodeCollides(h: Hasher, claimed: HashInput, es: seq<Digest>)
    requires claimed.NodeInput? && |es| >= 1
    requires h.of(claimed) == MerkleRoot(h, es)
    ensures match CompareNode(h, claimed, es)
            case Some(c) => IsCollision(h, c)
            case None =>
              && |es| >= 2
              && var k := LargestPowerOfTwoLessThan(|es|);
                 claimed == NodeInput(MerkleRoot(h, es[..k]), MerkleRoot(h, es[k..]))
  {
    hide MerkleRoot, LargestPowerOfTwoLessThan;
    MerkleRootSplits(h, es);
  }

  /** The sides, innermost first, are possible for an old list of `size` in a new one of `total`. */
  predicate Fits(sides: seq<Side>, size: nat, total: nat)
    requires size >= 1 && total >= 1
    decreases |sides|
  {
    if sides == [] then size == total
    else
      var last := |sides| - 1;
      if sides[last].OnRight? then
        && total >= 2
        && var k := LargestPowerOfTwoLessThan(total);
           size <= k && Fits(sides[..last], size, k)
      else
        && size >= 2 && total >= 2
        && var k := LargestPowerOfTwoLessThan(total);
           k == LargestPowerOfTwoLessThan(size) && k < size && k < total && Fits(sides[..last], size - k, total - k)
  }

  /** What the proof must consist of if it takes the sides of the generator's recursion. */
  predicate Generated(h: Hasher, sides: seq<Side>, seed: Digest, siblings: seq<Digest>, size: nat, news: seq<Digest>)
    requires 1 <= size <= |news|
  {
    sides == Sides(size, |news|) ==>
      seed == Innermost(h, size, LeafHashes(h, news)) && siblings == Siblings(h, size, LeafHashes(h, news))
  }

  lemma {:induction false} SidesUnfold(size: nat, total: nat)
    requires 1 <= size < total
    ensures var k := LargestPowerOfTwoLessThan(total);
            Sides(size, total) ==
            if size <= k then Sides(size, k) + [OnRight] else Sides(size - k, total - k) + [OnLeft]
  {
    hide LargestPowerOfTwoLessThan;
  }

  lemma {:induction false} GeneratorUnfold(h: Hasher, size: nat, leaves: seq<Digest>)
    requires 1 <= size < |leaves|
    ensures var k := LargestPowerOfTwoLessThan(|leaves|);
            if size <= k then
              && Innermost(h, size, leaves) == Innermost(h, size, leaves[..k])
              && Siblings(h, size, leaves) == Siblings(h, size, leaves[..k]) + [RootFromLeaves(h, leaves[k..])]
            else
              && Innermost(h, size, leaves) == Innermost(h, size - k, leaves[k..])
              && Siblings(h, size, leaves) == Siblings(h, size - k, leaves[k..]) + [RootFromLeaves(h, leaves[..k])]
  {
    hide LargestPowerOfTwoLessThan;
  }

  lemma {:induction false} ReplayUnsnoc(h: Hasher, sides: seq<Side>, seed: Digest, siblings: seq<Digest>)
    requires |sides| == |siblings| && sides != []
    ensures var last := |sides| - 1;
            var (o, n) := Replay(h, sides[..last], seed, seed, siblings[..last]);
            var outer := siblings[last];
            Replay(h, sides, seed, seed, siblings) ==
            if sides[last].OnLeft? then (h.of(NodeInput(outer, o)), h.of(NodeInput(outer, n)))
            else (o, h.of(NodeInput(n, outer)))
  {
    hide Replay;
    var last := |sides| - 1;
    assert sides == sides[..last] + [sides[last]] && siblings == siblings[..last] + [siblings[last]];
    ReplaySnoc(h, sides[..last], sides[last], seed, seed, siblings[..last], siblings[last]);
  }

  lemma {:induction false} GeneratedRight(
    h: Hasher, sides: seq<Side>, seed: Digest, siblings: seq<Digest>, size: nat, news: seq<Digest>)
    requires |sides| == |siblings| && sides != [] && |news| >= 2
    requires sides[|sides| - 1].OnRight?
    requires 1 <= size <= LargestPowerOfTwoLessThan(|news|)
    requires var k := LargestPowerOfTwoLessThan(|news|);
             && siblings[|sides| - 1] == MerkleRoot(h, news[k..])
             && Generated(h, sides[..|sides| - 1], seed, siblings[..|sides| - 1], size, news[..k])
    ensures Generated(h, sides, seed, siblings, size, news)
  {
    hide LargestPowerOfTwoLessThan, Sides, RootFromLeaves, LeafHashes, Innermost, Siblings;
    var k, last := LargestPowerOfTwoLessThan(|news|), |sides| - 1;
    LeafHashesSlice(h, news, k);
    GeneratorUnfold(h, size, LeafHashes(h, news));
    SidesUnfold(size, |news|);
    assert sides == sides[..last] + [sides[last]] && siblings == siblings[..last] + [siblings[last]];
    if sides == Sides(size, |news|) {
      assert sides[..last] == Sides(size, k);
    }
  }

  // What the generator makes of a list cut beyond its left subtree.
  lemma LeftUnfold(h: Hasher, size: nat, news: seq<Digest>)
    requires |news| >= 2 && LargestPowerOfTwoLessThan(|news|) < size < |news|
    ensures var k := LargestPowerOfTwoLessThan(|news|);
            && Sides(size, |news|) == Sides(size - k, |news| - k) + [OnLeft]
            && Innermost(h, size, LeafHashes(h, news)) == Innermost(h, size - k, LeafHashes(h, news[k..]))
            && Siblings(h, size, LeafHashes(h, news))
               == Siblings(h, size - k, LeafHashes(h, news[k..])) + [MerkleRoot(h, news[..k])]
  {
    hide LargestPowerOfTwoLessThan, RootFromLeaves, LeafHashes, Innermost, Siblings, Sides;
    LeafHashesSlice(h, news, LargestPowerOfTwoLessThan(|news|));
    GeneratorUnfold(h, size, LeafHashes(h, news));
    SidesUnfold(size, |news|);
  }

  lemma {:induction false} GeneratedLeft(
    h: Hasher, sides: seq<Side>, seed: Digest, siblings: seq<Digest>, size: nat, news: seq<Digest>)
    requires |sides| == |siblings| && sides != [] && |news| >= 2
    requires sides[|sides| - 1].OnLeft?
    requires LargestPowerOfTwoLessThan(|news|) < size <= |news|
    requires var k := LargestPowerOfTwoLessThan(|news|);
             && siblings[|sides| - 1] == MerkleRoot(h, news[..k])
             && Generated(h, sides[..|sides| - 1], seed, siblings[..|sides| - 1], size - k, news[k..])
    ensures Generated(h, sides, seed, siblings, size, news)
  {
    hide LargestPowerOfTwoLessThan, MerkleRoot, LeafHashes, Innermost, Siblings, Sides;
    if size == |news| {
      SidesOfWhole(size);
    } else if sides == Sides(size, |news|) {
      var k, last := LargestPowerOfTwoLessThan(|news|), |sides| - 1;
      LeftUnfold(h, size, news);
      assert sides[..last] == Sides(size - k, |news| - k);
      assert siblings == siblings[..last] + [siblings[last]];
    }
  }

  /**
   The heart of soundness, for sides of any kind: a replay that ends in two genuine roots
   makes the old list a prefix of the new one, on sides that fit the two sizes, or the
   peeling has met a collision.
   */
  lemma {:induction false} ReplayBinds(
    h: Hasher, sides: seq<Side>, seed: Digest, siblings: seq<Digest>, olds: seq<Digest>, news: seq<Digest>)
    requires |sides| == |siblings|
    requires |olds| >= 1 && |news| >= 1
    requires Replay(h, sides, seed, seed, siblings) == (MerkleRoot(h, olds), MerkleRoot(h, news))
    ensures match ReplayCollision(h, sides, seed, siblings, olds, news)
            case Some(c) => IsCollision(h, c)
            case None =>
              && olds <= news && Fits(sides, |olds|, |news|)
              && Generated(h, sides, seed, siblings, |olds|, news)
    decreases |sides|
  {
    hide LargestPowerOfTwoLessThan, CompareNode, Generated, Replay, MerkleRoot;
    if sides == [] {
      ReplayBindsAtSeed(h, seed, olds, news);
    } else {
      var last := |sides| - 1;
      var inner, innerSiblings, outer := sides[..last], siblings[..last], siblings[last];
      var (o, n) := Replay(h, inner, seed, seed, innerSiblings);
      ReplayUnsnoc(h, sides, seed, siblings);
      if sides[last].OnRight? {
        CompareNodeCollides(h, NodeInput(n, outer), news);
        if CompareNode(h, NodeInput(n, outer), news).None? {
          var k := LargestPowerOfTwoLessThan(|news|);
          ReplayBinds(h, inner, seed, innerSiblings, olds, news[..k]);
          if ReplayCollision(h, inner, seed, innerSiblings, olds, news[..k]).None? {
            GeneratedRight(h, sides, seed, siblings, |olds|, news);
          }
        }
      } else {
        CompareNodeCollides(h, NodeInput(outer, o), olds);
        CompareNodeCollides(h, NodeInput(outer, n), news);
        if CompareNode(h, NodeInput(outer, o), olds).None? && CompareNode(h, NodeInput(outer, n), news).None? {
          var j, k := LargestPowerOfTwoLessThan(|olds|), LargestPowerOfTwoLessThan(|news|);
          RootBindsList(h, olds[..j], news[..k]);
          if RootCollision(h, olds[..j], news[..k]).None? {
            assert j == |olds[..j]| == k;
            ReplayBinds(h, inner, seed, innerSiblings, olds[j..], news[k..]);
            if ReplayCollision(h, inner, seed, innerSiblings, olds[j..], news[k..]).None? {
              GeneratedLeft(h, sides, seed, siblings, |olds|, news);
              assert olds == olds[..j] + olds[j..] && news == news[..k] + news[k..];
            }
          }
        }
      }
    }
  }

  lemma {:induction false} ReplayBindsAtSeed(h: Hasher, seed: Digest, olds: seq<Digest>, news: seq<Digest>)
    requires |olds| >= 1 && |news| >= 1
    requires Replay(h, [], seed, seed, []) == (MerkleRoot(h, olds), MerkleRoot(h, news))
    ensures match RootCollision(h, olds, news)
            case Some(c) => IsCollision(h, c)
            case None => olds == news && Generated(h, [], seed, [], |olds|, news)
  {
    RootBindsList(h, olds, news);
  }

  // ---------------------------------------------------------------- uniqueness

  lemma {:induction false} FitsEqualSizes(sides: seq<Side>, size: nat)
    requires size >= 1 && Fits(sides, size, size)
    ensures forall i | 0 <= i < |sides| :: sides[i].OnLeft?
    decreases |sides|
  {
    hide LargestPowerOfTwoLessThan;
    if sides != [] {
      var last := |sides| - 1;
      FitsEqualSizes(sides[..last], size - LargestPowerOfTwoLessThan(size));
      assert forall i | 0 <= i < last :: sides[i] == sides[..last][i];
    }
  }

  // Sides that fit are the sides of the recursion, with nothing but left steps further in.
  lemma {:induction false} FitsEndsInSides(sides: seq<Side>, size: nat, total: nat)
    requires 1 <= size < total && Fits(sides, size, total)
    ensures exists extra: nat :: |sides| == extra + |Sides(size, total)| && sides == Lefts(extra) + Sides(size, total)
    decreases |sides|
  {
    hide LargestPowerOfTwoLessThan, Sides;
    SidesUnfold(size, total);
    var k, last := LargestPowerOfTwoLessThan(total), |sides| - 1;
    var inner, innerSize, innerTotal := sides[..last], if size <= k then size else size - k, if size <= k then k
        else total - k;
    if innerSize == innerTotal {
      FitsEqualSizes(inner, size);
      SidesOfWhole(innerSize);
      assert inner == Lefts(last);
      assert sides == Lefts(last) + Sides(size, total);
    } else {
      FitsEndsInSides(inner, innerSize, innerTotal);
      var extra: nat :| |inner| == extra + |Sides(innerSize, innerTotal)|
                        && inner == Lefts(extra) + Sides(innerSize, innerTotal);
      assert sides == inner + [sides[last]];
      assert sides == Lefts(extra) + Sides(size, total);
    }
  }

  lemma SidesOfWhole(size: nat)
    requires size >= 1
    ensures Sides(size, size) == []
  {
  }

  lemma {:induction false} SidesHasRight(size: nat, total: nat) returns (r: nat)
    requires 1 <= size < total
    ensures r < |Sides(size, total)| && Sides(size, total)[r].OnRight?
    decreases total
  {
    hide LargestPowerOfTwoLessThan, Sides;
    SidesUnfold(size, total);
    var k := LargestPowerOfTwoLessThan(total);
    if size <= k {
      r := |Sides(size, k)|;
    } else {
      r := SidesHasRight(size - k, total - k);
    }
  }

  // A word that commutes with a run of left steps has no right step.
  lemma {:induction false} CommutingWordIsLeft(word: seq<Side>, extra: nat, r: nat)
    requires extra > 0 && r < |word|
    requires word + Lefts(extra) == Lefts(extra) + word
    ensures word[r].OnLeft?
    decreases r
  {
    assert (word + Lefts(extra))[r] == word[r];
    if r < extra {
      assert (Lefts(extra) + word)[r].OnLeft?;
    } else {
      assert (Lefts(extra) + word)[r] == word[r - extra];
      CommutingWordIsLeft(word, extra, r - extra);
    }
  }

  /** A walk of any length whose sides fit the two sizes has the length and the sides of the recursion. */
  lemma {:induction false} FittingWalkIsExact(size: nat, total: nat, count: nat)
    requires 1 <= size < total
    requires var (f, s) := StripOnes(size - 1, total - 1); Fits(Walk(f, s, count), size, total)
    ensures var (f, s) := StripOnes(size - 1, total - 1); Walk(f, s, count) == Sides(size, total)
  {
    hide LargestPowerOfTwoLessThan, StripOnes, Walk, Fits, Exact, Sides;
    var (f, s) := StripOnes(size - 1, total - 1);
    var sides, word := Walk(f, s, count), Sides(size, total);
    WalkMatchesRecursion(size, total);
    WalkOfExact(f, s, word, count);
    FitsEndsInSides(sides, size, total);
    var extra: nat :| |sides| == extra + |word| && sides == Lefts(extra) + word;
    if extra > 0 {
      var r := SidesHasRight(size, total);
      CommutingWordIsLeft(word, extra, r);
      assert false;
    } else {
      assert Lefts(0) == [];
      assert word[..|word|] == word && Lefts(0) + word == word && word + Lefts(0) == word;
    }
  }

  // ---------------------------------------------------------------- main theorems

  /** The collision behind an acceptance that should not be, computed from the two lists and the proof. */
  function ConsistencyCollision(h: Hasher, olds: seq<Digest>, news: seq<Digest>, path: seq<Digest>): Option<Collision>
    requires 1 <= |olds| <= |news|
  {
    if |olds| == |news| then RootCollision(h, olds, news)
    else
      var (f, s) := StripOnes(|olds| - 1, |news| - 1);
      if f == 0 then
        ReplayCollision(h, Walk(f, s, |path|), MerkleRoot(h, olds), path, olds, news)
      else if path == [] then None
      else
        ReplayCollision(h, Walk(f, s, |path| - 1), path[0], path[1..], olds, news)
  }

  /**
   Soundness with extraction, and uniqueness: acceptance against the roots of `olds` and
   `news` means that `olds` is a prefix of `news` and that the path is the generated one, or
   the computed pair of hash inputs is a collision.
   */
  lemma {:induction false} ConsistencySoundness(h: Hasher, olds: seq<Digest>, news: seq<Digest>, path: seq<Digest>)
    requires 1 <= |olds| <= |news|
    requires ConsistencyAccepted(h, |olds|, |news|, MerkleRoot(h, olds), MerkleRoot(h, news), path)
    ensures match ConsistencyCollision(h, olds, news, path)
            case Some(c) => IsCollision(h, c)
            case None => olds <= news && GenerateConsistencyPath(h, news, |olds|, |news|) == Some(path)
  {
    hide StripOnes, Walk, Replay, ReplayCollision, MerkleRoot, Fits, Sides, GenerateConsistencyPath, Generated,
        IsSha256Digest, RootCollision;
    if |olds| == |news| {
      RootBindsList(h, olds, news);
      GenerateNothing(h, news);
    } else {
      var (f, s) := StripOnes(|olds| - 1, |news| - 1);
      var seed: Digest := if f == 0 then MerkleRoot(h, olds) else path[0];
      var siblings: seq<Digest> := if f == 0 then path else path[1..];
      ReplayBinds(h, Walk(f, s, |siblings|), seed, siblings, olds, news);
      if ReplayCollision(h, Walk(f, s, |siblings|), seed, siblings, olds, news).None? {
        FittingWalkIsExact(|olds|, |news|, |siblings|);
        GeneratedIsThePath(h, olds, news, seed, siblings, path);
      }
    }
  }

  lemma GenerateNothing(h: Hasher, news: seq<Digest>)
    requires |news| >= 1
    ensures GenerateConsistencyPath(h, news, |news|, |news|) == Some([])
  {
  }

  lemma {:induction false} GeneratedIsThePath(
    h: Hasher, olds: seq<Digest>, news: seq<Digest>, seed: Digest, siblings: seq<Digest>, path: seq<Digest>)
    requires 1 <= |olds| < |news|
    requires Generated(h, Sides(|olds|, |news|), seed, siblings, |olds|, news)
    requires var f := StripOnes(|olds| - 1, |news| - 1).0;
             if f == 0 then path == siblings else path == [seed] + siblings
    ensures GenerateConsistencyPath(h, news, |olds|, |news|) == Some(path)
  {
    hide StripOnes, Exact, Sides, ConsistencySubproof, Innermost, Siblings, LeafHashes;
    var (f, s) := StripOnes(|olds| - 1, |news| - 1);
    WalkMatchesRecursion(|olds|, |news|);
    ExactAllRight(f, s, Sides(|olds|, |news|));
    SubproofShape(h, |olds|, LeafHashes(h, news), true);
    assert news[..|news|] == news;
    assert [] + siblings == siblings;
  }

  /**
   Against genuine roots the check decides exactly "prefix, with the generated proof of at
   most 256 hashes", up to the computed collision.
   */
  lemma {:induction false} ConsistencyDecides(h: Hasher, olds: seq<Digest>, news: seq<Digest>, path: seq<Digest>)
    requires 1 <= |olds| <= |news|
    ensures var accepted := ConsistencyAccepted(h, |olds|, |news|, MerkleRoot(h, olds), MerkleRoot(h, news), path);
            var right := olds <= news && GenerateConsistencyPath(h, news, |olds|, |news|) == Some(path)
                         && |path| <= MAX_PROOF_HASHES;
            && (right ==> accepted)
            && (accepted && !right ==>
                  var c := ConsistencyCollision(h, olds, news, path); c.Some? && IsCollision(h, c.value))
  {
    hide MerkleRoot, ConsistencyCollision, GenerateConsistencyPath;
    if ConsistencyAccepted(h, |olds|, |news|, MerkleRoot(h, olds), MerkleRoot(h, news), path) {
      ConsistencySoundness(h, olds, news, path);
    }
    if olds <= news && GenerateConsistencyPath(h, news, |olds|, |news|) == Some(path) && |path| <= MAX_PROOF_HASHES {
      hide ConsistencyAccepted;
      GeneratedPathAccepted(h, news, |olds|, |news|);
      assert news[..|olds|] == olds && news[..|news|] == news;
    }
  }

  lemma {:induction false} PowerStripsToZero(k: nat, s: nat)
    ensures StripOnes(Pow2(k) - 1, s).0 == 0
  {
    if k > 0 {
      PowerStripsToZero(k - 1, s / 2);
    }
  }

  lemma {:induction false} StripsToZeroIsPower(f: nat, s: nat) returns (k: nat)
    requires StripOnes(f, s).0 == 0
    ensures f + 1 == Pow2(k)
  {
    if f == 0 {
      k := 0;
    } else {
      k := StripsToZeroIsPower(f / 2, s / 2);
      k := k + 1;
    }
  }

  /**
   Roots that no list has: RFC 9162 rejects every empty path between different sizes, the
   code accepts one exactly when the two roots are equal and the old size is a power of two.
   */
  lemma {:induction false} EmptyPathAccepted(h: Hasher, oldSize: nat, newSize: nat, oldRoot: Digest, newRoot: Digest)
    requires 1 <= oldSize < newSize
    ensures ConsistencyAccepted(h, oldSize, newSize, oldRoot, newRoot, [])
            <==> oldRoot == newRoot && exists k: nat :: oldSize == Pow2(k)
  {
    hide StripOnes, IsSha256Digest, Pow2;
    if StripOnes(oldSize - 1, newSize - 1).0 == 0 {
      var k := StripsToZeroIsPower(oldSize - 1, newSize - 1);
    }
    forall k: nat | oldSize == Pow2(k) ensures StripOnes(oldSize - 1, newSize - 1).0 == 0 {
      PowerStripsToZero(k, newSize - 1);
    }
    var (f, s) := StripOnes(oldSize - 1, newSize - 1);
    var none: seq<Digest> := [];
    assert Replay(h, Walk(f, s, 0), oldRoot, oldRoot, none) == (oldRoot, oldRoot);
  }
}
