/**
 Checkpoints and proofs about them (app/transparency_checkpoint.py), and the theorem about
 chains of tree heads that the checkpoint state and the witnesses share.
 */
module Checkpoints {
  import opened Wrappers
  import opened Hashing
  import opened MerkleTree
  import opened MerkleConsistency
  import opened MerkleSoundness
  import opened MerkleCuts
  import opened TransparencyLog
  import opened TransparencyLogFiles

  /** A verified checkpoint: what verify_transparency_checkpoint returns. */
  datatype Checkpoint = Checkpoint(
    logId: string, treeSize: nat, rootHash: Digest, lastEntryHash: Digest, logSigningKeyId: string,
    checkpointSha256: Digest, issuedAt: int)

  datatype TreeHead = TreeHead(logId: string, treeSize: nat, rootHash: Digest)

  datatype ConsistencyProof = ConsistencyProof(
    logId: string, oldTreeSize: int, newTreeSize: int, oldRootHash: Digest, newRootHash: Digest,
    consistencyPath: seq<Digest>)

  datatype ConsistencyResult = ConsistencyResult(
    logId: string, oldTreeSize: int, newTreeSize: int, oldRootHash: Digest, newRootHash: Digest)

  datatype InclusionProof = InclusionProof(
    logId: string, treeSize: int, leafIndex: int, sequence: int, entryHash: Digest, rootHash: Digest,
        auditPath: seq<Digest>)

  datatype InclusionResult = InclusionResult(
    logId: string, sequence: int, leafIndex: int, treeSize: int, entryHash: Digest, rootHash: Digest)

  datatype CheckpointError =
    | LogMismatch | InclusionMismatch | ConsistencyMismatch | ProofInvalid

  function HeadOf(cp: Checkpoint): TreeHead {
    TreeHead(cp.logId, cp.treeSize, cp.rootHash)
  }

  /** The root and size of a checkpoint are those of a list of entry hashes. */
  predicate Genuine(h: Hasher, treeSize: nat, rootHash: Digest, entryHashes: seq<Digest>) {
    treeSize == |entryHashes| >= 1 && rootHash == MerkleRoot(h, entryHashes)
  }

  /** The VERIFY_AGAINST_LOG checks of verify_transparency_checkpoint. */
  predicate MatchesLog(h: Hasher, cp: Checkpoint, v: LogVerification) {
    && v.entryCount == cp.treeSize
    && v.lastEntryHash == Some(cp.lastEntryHash)
    && MerkleRoot(h, v.entryHashes) == cp.rootHash
  }

  /** A checkpoint that was verified against a verified log is genuine for that log. */
  lemma {:induction false} MatchingCheckpointIsGenuine(h: Hasher, cp: Checkpoint, v: LogVerification, es: seq<Entry>)
    requires Describes(v, es) && MatchesLog(h, cp, v)
    ensures Genuine(h, cp.treeSize, cp.rootHash, v.entryHashes)
    ensures HashesOf(v.entryHashes, es)
  {
    assert es != [] by {
      assert es == [] ==> v.lastEntryHash == None;
    }
  }

  function GenerateCheckpointConsistencyProof(
    h: Hasher, oldCheckpoint: Checkpoint, newCheckpoint: Checkpoint, v: LogVerification
  ): Result<ConsistencyProof, CheckpointError> {
    if oldCheckpoint.logId != newCheckpoint.logId || v.entryCount != newCheckpoint.treeSize then Err(LogMismatch)
    else
      match GenerateConsistencyPath(h, v.entryHashes, oldCheckpoint.treeSize, newCheckpoint.treeSize)
      case None => Err(ProofInvalid)
      case Some(path) =>
        if |path| > MAX_PROOF_HASHES then Err(ProofInvalid)
        else Ok(ConsistencyProof(newCheckpoint.logId, oldCheckpoint.treeSize, newCheckpoint.treeSize,
                                 oldCheckpoint.rootHash, newCheckpoint.rootHash, path))
  }

  function VerifyCheckpointConsistencyProof(
    h: Hasher, oldHead: TreeHead, newHead: TreeHead, proof: ConsistencyProof
  ): Result<ConsistencyResult, CheckpointError> {
    if || proof.logId != oldHead.logId || proof.logId != newHead.logId
       || proof.oldTreeSize != oldHead.treeSize || proof.newTreeSize != newHead.treeSize
       || proof.oldRootHash != oldHead.rootHash || proof.newRootHash != newHead.rootHash
    then Err(ConsistencyMismatch)
    else if !ConsistencyAccepted(h, proof.oldTreeSize, proof.newTreeSize, proof.oldRootHash, proof.newRootHash,
                                 proof.consistencyPath)
    then Err(ConsistencyMismatch)
    else Ok(ConsistencyResult(proof.logId, proof.oldTreeSize, proof.newTreeSize, proof.oldRootHash, proof.newRootHash))
  }

  function GenerateCheckpointInclusionProof(
    h: Hasher, cp: Checkpoint, v: LogVerification, inclusion: Inclusion
  ): Result<InclusionProof, CheckpointError> {
    if v.entryCount != cp.treeSize || v.lastEntryHash != Some(cp.lastEntryHash) then Err(LogMismatch)
    else
      var leafIndex := inclusion.sequence - 1;
      if leafIndex < 0 || leafIndex >= |v.entryHashes| || v.entryHashes[leafIndex] != inclusion.entryHash then
        Err(InclusionMismatch)
      else
        match GenerateInclusionPath(h, v.entryHashes, leafIndex)
        case None => Err(ProofInvalid)
        case Some(path) =>
          if |path| > MAX_PROOF_HASHES then Err(ProofInvalid)
          else Ok(InclusionProof(cp.logId, cp.treeSize, leafIndex, inclusion.sequence, inclusion.entryHash,
              cp.rootHash, path))
  }

  /** The validators of the inclusion proof payload; its hashes are digests by type. */
  predicate ValidInclusionPayload(proof: InclusionProof) {
    && 0 <= proof.leafIndex < proof.treeSize && proof.sequence == proof.leafIndex + 1
    && |proof.auditPath| <= MAX_PROOF_HASHES
  }

  function VerifyCheckpointInclusionProof(
      h: Hasher, cp: Checkpoint, proof: InclusionProof
  ): Result<InclusionResult, CheckpointError> {
    if !ValidInclusionPayload(proof) then Err(ProofInvalid)
    else if proof.logId != cp.logId || proof.treeSize != cp.treeSize || proof.rootHash != cp.rootHash
        then Err(InclusionMismatch)
    else
      match CalculateRootFromInclusionProof(h, proof.entryHash, proof.leafIndex, proof.treeSize, proof.auditPath)
      case None => Err(ProofInvalid)
      case Some(root) =>
        if root != cp.rootHash then Err(InclusionMismatch)
        else Ok(InclusionResult(proof.logId, proof.sequence, proof.leafIndex, proof.treeSize, proof.entryHash,
                                proof.rootHash))
  }

  /**
   A consistency proof is made exactly for two sizes, in order, of the log the newer checkpoint is
   for; of both it says what they say.
   */
  lemma {:induction false} ConsistencyProofIsOfItsCheckpoints(
    h: Hasher, oldCheckpoint: Checkpoint, newCheckpoint: Checkpoint, v: LogVerification)
    ensures var r := GenerateCheckpointConsistencyProof(h, oldCheckpoint, newCheckpoint, v);
            var path := GenerateConsistencyPath(h, v.entryHashes, oldCheckpoint.treeSize, newCheckpoint.treeSize);
            var ofLog := oldCheckpoint.logId == newCheckpoint.logId && v.entryCount == newCheckpoint.treeSize;
            && (path.Some? <==> 1 <= oldCheckpoint.treeSize <= newCheckpoint.treeSize <= |v.entryHashes|)
            && (r.Ok? <==> ofLog && path.Some? && |path.value| <= 256)
            && (r == Err(LogMismatch) <==> !ofLog)
            && (r.Ok? ==>
                  && r.value.logId == oldCheckpoint.logId == newCheckpoint.logId
                  && r.value.oldTreeSize == oldCheckpoint.treeSize && r.value.oldRootHash == oldCheckpoint.rootHash
                  && r.value.newTreeSize == newCheckpoint.treeSize && r.value.newRootHash == newCheckpoint.rootHash
                  && r.value.consistencyPath == path.value)
  {
    hide ConsistencySubproof;
  }

  /** An inclusion proof is made exactly for an entry of the log the checkpoint is for. */
  lemma {:induction false} InclusionProofIsOfItsEntry(
    h: Hasher, cp: Checkpoint, v: LogVerification, inclusion: Inclusion)
    ensures var r, i := GenerateCheckpointInclusionProof(h, cp, v, inclusion), inclusion.sequence - 1;
            var path := GenerateInclusionPath(h, v.entryHashes, i);
            var ofLog := v.entryCount == cp.treeSize && v.lastEntryHash == Some(cp.lastEntryHash);
            var isEntry := 0 <= i < |v.entryHashes| && v.entryHashes[i] == inclusion.entryHash;
            && (r.Ok? <==> ofLog && isEntry && |path.value| <= 256)
            && (r == Err(LogMismatch) <==> !ofLog)
            && (r == Err(InclusionMismatch) <==> ofLog && !isEntry)
            && (r.Ok? ==>
                  && r.value.logId == cp.logId && r.value.treeSize == cp.treeSize && r.value.rootHash == cp.rootHash
                  && r.value.leafIndex == i && r.value.sequence == inclusion.sequence
                  && r.value.entryHash == inclusion.entryHash && r.value.auditPath == path.value)
  {
    hide InclusionPathFromLeaves;
  }

  /**
   An inclusion proof passes exactly when it is for this checkpoint and its path leads from its
   entry to the checkpoint's root; what is reported is what the proof says.
   */
  lemma {:induction false} InclusionPassesIffItLeadsToRoot(h: Hasher, cp: Checkpoint, proof: InclusionProof)
    ensures var r := VerifyCheckpointInclusionProof(h, cp, proof);
            var i, n := proof.leafIndex, cp.treeSize;
            && (r.Ok? <==>
                  && proof.logId == cp.logId && proof.treeSize == n && proof.rootHash == cp.rootHash
                  && 0 <= i < n && proof.sequence == i + 1 && |proof.auditPath| == Depth(i, n) <= 256
                  && RootFromSiblings(h, LeafHash(h, proof.entryHash), i, n, proof.auditPath) == cp.rootHash)
            && (r.Ok? ==>
                  r.value == InclusionResult(cp.logId, i + 1, i, n, proof.entryHash, cp.rootHash))
  {
    hide CalculateRootFromInclusionProof, Depth, RootFromSiblings, LeafHash;
    CalculatesAlongSiblings(h, proof.entryHash, proof.leafIndex, proof.treeSize, proof.auditPath);
  }

  /**
   A proof that passes against a checkpoint of a verified log names the entry of that log with
   its sequence number, and carries the generated path; or a collision is computed.
   */
  lemma {:induction false} PassingProofNamesEntry(
    h: Hasher, cp: Checkpoint, v: LogVerification, es: seq<Entry>, proof: InclusionProof)
    requires Describes(v, es) && MatchesLog(h, cp, v)
    requires VerifyCheckpointInclusionProof(h, cp, proof).Ok?
    ensures VerifyCheckpointInclusionProof(h, cp, proof).value.sequence == proof.sequence
    ensures VerifyCheckpointInclusionProof(h, cp, proof).value.entryHash == proof.entryHash
    ensures 1 <= proof.sequence <= |es| == |v.entryHashes|
    ensures |proof.auditPath| == Depth(proof.sequence - 1, |v.entryHashes|)
    ensures match InclusionCollision(h, proof.entryHash, proof.sequence - 1, proof.auditPath, v.entryHashes)
            case Some(c) => IsCollision(h, c)
            case None =>
              && proof.entryHash == es[proof.sequence - 1].entryHash
              && GenerateInclusionPath(h, v.entryHashes, proof.sequence - 1) == Some(proof.auditPath)
  {
    hide CalculateRootFromInclusionProof, InclusionCollision, MerkleRoot, InclusionPathFromLeaves, Depth,
         RootFromSiblings, RootTransitions, Indexes;
    MatchingCheckpointIsGenuine(h, cp, v, es);
    InclusionBinds(h, proof.entryHash, proof.leafIndex, proof.auditPath, v.entryHashes);
  }

  /** Between two checkpoints of one verified log a proof is always generated, and it always verifies. */
  lemma {:induction false} CheckpointConsistencyRoundTrip(
    h: Hasher, oldCheckpoint: Checkpoint, newCheckpoint: Checkpoint, v: LogVerification, es: seq<Entry>)
    requires Describes(v, es) && |es| <= MAX_LOG_ENTRIES
    requires MatchesLog(h, newCheckpoint, v)
    requires oldCheckpoint.logId == newCheckpoint.logId
    requires 1 <= oldCheckpoint.treeSize <= newCheckpoint.treeSize
    requires oldCheckpoint.rootHash == MerkleRoot(h, v.entryHashes[..oldCheckpoint.treeSize])
    ensures var p := GenerateCheckpointConsistencyProof(h, oldCheckpoint, newCheckpoint, v);
            p.Ok? && VerifyCheckpointConsistencyProof(h, HeadOf(oldCheckpoint), HeadOf(newCheckpoint), p.value).Ok?
  {
    hide MerkleRoot, ConsistencyAccepted, ConsistencySubproof, Indexes, RootTransitions, Pow2;
    var hashes := v.entryHashes;
    assert hashes[..newCheckpoint.treeSize] == hashes;
    Pow2Of17();
    ConsistencyPathBound(h, hashes, oldCheckpoint.treeSize, newCheckpoint.treeSize, 17);
    GeneratedPathAccepted(h, hashes, oldCheckpoint.treeSize, newCheckpoint.treeSize);
  }

  /** Every entry of a verified log has an inclusion proof for its checkpoint, and it verifies. */
  lemma {:induction false} CheckpointInclusionRoundTrip(
    h: Hasher, cp: Checkpoint, v: LogVerification, es: seq<Entry>, i: nat)
    requires Describes(v, es) && |es| <= MAX_LOG_ENTRIES && i < |es|
    requires es[i].unsigned.sequence == i + 1
    requires MatchesLog(h, cp, v)
    ensures var p := GenerateCheckpointInclusionProof(h, cp, v, InclusionOf(es[i]));
            && p.Ok? && VerifyCheckpointInclusionProof(h, cp, p.value)
                        == Ok(InclusionResult(cp.logId, es[i].unsigned.sequence, i, |es|, es[i].entryHash, cp.rootHash))
  {
    hide MerkleRoot, CalculateRootFromInclusionProof, InclusionPathFromLeaves, Indexes, RootTransitions, Pow2;
    InclusionPathBound(h, v.entryHashes, i);
    Pow2Of17();
    Pow2Monotone(17, MAX_PROOF_HASHES);
    InclusionRoundTrip(h, v.entryHashes, i);
  }

  // ---------------------------------------------------------------- chains of tree heads

  /** A tree head some stateful party accepted, with the consistency path it accepted it on. */
  datatype AcceptedHead = AcceptedHead(treeSize: nat, rootHash: Digest, path: seq<Digest>)

  /** The later head repeats the earlier one, or is larger and comes with an accepted proof. */
  predicate HeadFollows(h: Hasher, earlier: AcceptedHead, later: AcceptedHead) {
    || (later.treeSize == earlier.treeSize && later.rootHash == earlier.rootHash)
    || (later.treeSize > earlier.treeSize
        && ConsistencyAccepted(h, earlier.treeSize, later.treeSize, earlier.rootHash, later.rootHash, later.path))
  }

  predicate HeadChain(h: Hasher, heads: seq<AcceptedHead>) {
    forall i | 0 <= i < |heads| - 1 :: HeadFollows(h, heads[i], heads[i + 1])
  }

  lemma {:induction false} ChainGrows(h: Hasher, heads: seq<AcceptedHead>, i: nat, j: nat)
    requires HeadChain(h, heads) && i <= j < |heads|
    ensures heads[i].treeSize <= heads[j].treeSize
    ensures heads[i].treeSize == heads[j].treeSize ==> heads[i].rootHash == heads[j].rootHash
    decreases j - i
  {
    hide ConsistencyAccepted;
    if i < j {
      ChainGrows(h, heads, i, j - 1);
      assert HeadFollows(h, heads[j - 1], heads[j - 1 + 1]);
    }
  }

  /** How many entries of the later head's list the earlier head covers, or a collision. */
  function LinkCut(
      h: Hasher, earlier: AcceptedHead, later: AcceptedHead, news: seq<Digest>
  ): (r: Result<nat, Collision>)
    requires |news| >= 1
    ensures r.Ok? ==> 1 <= r.value <= |news|
  {
    if 1 <= earlier.treeSize < later.treeSize then
      ConsistencyCut(h, earlier.treeSize, later.treeSize, earlier.rootHash, later.path, news)
    else Ok(|news|)
  }

  lemma {:induction false} LinkCutIsPrefixRoot(h: Hasher, earlier: AcceptedHead, later: AcceptedHead, news: seq<Digest>)
    requires HeadFollows(h, earlier, later)
    requires |news| >= 1 && later.rootHash == MerkleRoot(h, news)
    ensures match LinkCut(h, earlier, later, news)
            case Err(c) => IsCollision(h, c)
            case Ok(p) => earlier.rootHash == MerkleRoot(h, news[..p])
  {
    hide MerkleRoot, ConsistencyCut;
    if earlier.treeSize < later.treeSize {
      AcceptedSizes(h, earlier.treeSize, later.treeSize, earlier.rootHash, later.rootHash, later.path);
      hide ConsistencyAccepted;
      OldRootIsPrefixRoot(h, earlier.treeSize, later.treeSize, earlier.rootHash, later.path, news);
    } else {
      assert news[..|news|] == news;
    }
  }

  lemma AcceptedSizes(h: Hasher, oldSize: int, newSize: int, oldRoot: Digest, newRoot: Digest, path: seq<Digest>)
    requires ConsistencyAccepted(h, oldSize, newSize, oldRoot, newRoot, path)
    ensures 1 <= oldSize <= newSize
  {
  }

  /** The same, back along the chain from the head at j to the head at i. */
  function ChainCut(h: Hasher, heads: seq<AcceptedHead>, i: nat, j: nat, news: seq<Digest>): (r: Result<nat, Collision>)
    requires i <= j < |heads| && |news| >= 1
    ensures r.Ok? ==> 1 <= r.value <= |news|
    decreases j - i
  {
    if i == j then Ok(|news|)
    else
      match LinkCut(h, heads[j - 1], heads[j], news)
      case Err(c) => Err(c)
      case Ok(p) => ChainCut(h, heads, i, j - 1, news[..p])
  }

  /**
   One genuine root at the end of a chain fixes every root before it, whatever they were claimed
   to be: each is the root of a prefix of that list, or a collision is computed.
   */
  lemma {:induction false} EarlierRootsArePrefixRoots(
    h: Hasher, heads: seq<AcceptedHead>, i: nat, j: nat, news: seq<Digest>)
    requires HeadChain(h, heads) && i <= j < |heads|
    requires |news| >= 1 && heads[j].rootHash == MerkleRoot(h, news)
    ensures match ChainCut(h, heads, i, j, news)
            case Err(c) => IsCollision(h, c)
            case Ok(p) => heads[i].rootHash == MerkleRoot(h, news[..p])
    decreases j - i
  {
    hide HeadFollows, LinkCut, MerkleRoot;
    if i == j {
      assert news[..|news|] == news;
    } else {
      assert HeadFollows(h, heads[j - 1], heads[j - 1 + 1]);
      LinkCutIsPrefixRoot(h, heads[j - 1], heads[j], news);
      var cut := LinkCut(h, heads[j - 1], heads[j], news);
      if cut.Ok? {
        EarlierRootsArePrefixRoots(h, heads, i, j - 1, news[..cut.value]);
        var rest := ChainCut(h, heads, i, j - 1, news[..cut.value]);
        assert rest.Ok? ==> news[..cut.value][..rest.value] == news[..rest.value];
      }
    }
  }

  /** The collision between the lists behind the heads at i and j, found walking back from the later one. */
  function ChainedHeadsCollision(
    h: Hasher, heads: seq<AcceptedHead>, i: nat, j: nat, olds: seq<Digest>, news: seq<Digest>
  ): Option<Collision>
    requires i <= j < |heads| && |olds| >= 1 && |news| >= 1
  {
    match ChainCut(h, heads, i, j, news)
    case Err(c) => Some(c)
    case Ok(p) => RootCollision(h, olds, news[..p])
  }

  /**
   What was accepted later extends what was accepted earlier: two heads of a chain that are
   genuine have prefix-related lists, whatever the heads before, between and after them are.
   */
  lemma {:induction false} ChainIsPrefixChain(
    h: Hasher, heads: seq<AcceptedHead>, i: nat, j: nat, olds: seq<Digest>, news: seq<Digest>)
    requires HeadChain(h, heads) && i <= j < |heads|
    requires Genuine(h, heads[i].treeSize, heads[i].rootHash, olds)
    requires Genuine(h, heads[j].treeSize, heads[j].rootHash, news)
    ensures match ChainedHeadsCollision(h, heads, i, j, olds, news)
            case Some(c) => IsCollision(h, c)
            case None => olds <= news
  {
    hide MerkleRoot, HeadChain, ChainCut, RootCollision;
    EarlierRootsArePrefixRoots(h, heads, i, j, news);
    var cut := ChainCut(h, heads, i, j, news);
    if cut.Ok? { RootBindsList(h, olds, news[..cut.value]); }
  }

  // ---------------------------------------------------------------- logs behind checkpoints

  /** The collision between the contents of two verified logs that one root was found to match. */
  function LogCollision(
      h: Hasher, c: Codec, v: LogVerification, es: seq<Entry>, u: LogVerification, fs: seq<Entry>
  ): Option<Collision>
    requires |v.entryHashes| >= 1 && |u.entryHashes| >= 1
  {
    match RootCollision(h, v.entryHashes, u.entryHashes)
    case Some(k) => Some(k)
    case None => if |es| == |fs| then ChainCollision(c, es, fs) else None
  }

  /** Chains whose entry hashes are prefix-related have prefix-related entries, or an entry hash collides. */
  lemma {:induction false} HashPrefixPinsEntries(
    h: Hasher, c: Codec, xs: seq<Digest>, es: seq<Entry>, ys: seq<Digest>, fs: seq<Entry>)
    requires ValidCodec(c) && Chained(h, c, es) && Chained(h, c, fs)
    requires HashesOf(xs, es) && HashesOf(ys, fs) && xs <= ys
    ensures |es| <= |fs|
    ensures match ChainCollision(c, es, fs[..|es|])
            case Some(k) => IsCollision(h, k)
            case None => es <= fs
  {
    hide ValidCodec, Chained;
    var n := |es|;
    ChainedPrefix(h, c, fs, n);
    assert n > 0 ==> xs[n - 1] == es[n - 1].entryHash && ys[n - 1] == fs[n - 1].entryHash;
    TipBindsChain(h, c, es, fs[..n]);
  }

  /**
   A checkpoint pins the whole log: two verified logs that match checkpoints with one root hold
   the same entries, or a collision is computed, whatever else the checkpoints say.
   */
  lemma {:induction false} CheckpointPinsLog(
    h: Hasher, c: Codec, cp: Checkpoint, v: LogVerification, es: seq<Entry>, dp: Checkpoint, u: LogVerification,
        fs: seq<Entry>)
    requires ValidCodec(c) && Chained(h, c, es) && Chained(h, c, fs)
    requires Describes(v, es) && Describes(u, fs)
    requires MatchesLog(h, cp, v) && MatchesLog(h, dp, u) && cp.rootHash == dp.rootHash
    ensures |v.entryHashes| >= 1 && |u.entryHashes| >= 1
    ensures match LogCollision(h, c, v, es, u, fs)
            case Some(k) => IsCollision(h, k)
            case None => es == fs
  {
    hide ValidCodec, Chained, MerkleRoot, Indexes, RootTransitions, RootCollision, ChainCollision;
    MatchingCheckpointIsGenuine(h, cp, v, es);
    MatchingCheckpointIsGenuine(h, dp, u, fs);
    RootBindsList(h, v.entryHashes, u.entryHashes);
    if RootCollision(h, v.entryHashes, u.entryHashes).None? {
      HashPrefixPinsEntries(h, c, v.entryHashes, es, u.entryHashes, fs);
      assert fs[..|es|] == fs;
    }
  }
}
