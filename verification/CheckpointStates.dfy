/**
 The persistent checkpoint state of app/transparency_checkpoint_state.py: the largest
 checkpoint one observer has applied.
 */
module CheckpointStates {
  import opened Wrappers
  import opened Hashing
  import opened MerkleConsistency
  import opened Checkpoints

  datatype CheckpointState = CheckpointState(
    logId: string, highestTreeSize: nat, highestRootHash: Digest, highestCheckpointSha256: Digest,
    logSigningKeyId: string, updatedAt: int)

  datatype ApplyError = SplitView | Rollback | ConsistencyRequired | BadProof

  datatype Applied = Applied(storedState: Option<CheckpointState>, currentState: CheckpointState, updated: bool)

  function BuildCheckpointState(cp: Checkpoint, updatedAt: int): CheckpointState {
    CheckpointState(cp.logId, cp.treeSize, cp.rootHash, cp.checkpointSha256, cp.logSigningKeyId, updatedAt)
  }

  /** The decision of apply_verified_checkpoint_to_state. */
  function ApplyCheckpoint(
    stored: Option<CheckpointState>, cp: Checkpoint, proof: Option<ConsistencyResult>, updatedAt: int
  ): Result<Applied, ApplyError> {
    match stored
    case None => Ok(Applied(None, BuildCheckpointState(cp, updatedAt), true))
    case Some(s) =>
      if s.logId != cp.logId || s.logSigningKeyId != cp.logSigningKeyId then Err(SplitView)
      else if cp.treeSize < s.highestTreeSize then Err(Rollback)
      else if cp.treeSize == s.highestTreeSize then
        if s.highestRootHash != cp.rootHash || s.highestCheckpointSha256 != cp.checkpointSha256 then Err(SplitView)
        else Ok(Applied(stored, s, false))
      else
        match proof
        case None => Err(ConsistencyRequired)
        case Some(p) =>
          if || p.oldTreeSize != s.highestTreeSize || p.oldRootHash != s.highestRootHash
             || p.newTreeSize != cp.treeSize || p.newRootHash != cp.rootHash
          then Err(SplitView)
          else Ok(Applied(stored, BuildCheckpointState(cp, updatedAt), true))
  }

  class CheckpointStateFile {
    var stored: Option<CheckpointState>

    constructor ()
      ensures stored == None
    {
      stored := None;
    }

    method Apply(
        cp: Checkpoint, proof: Option<ConsistencyResult>, updatedAt: int
    ) returns (r: Result<Applied, ApplyError>)
      modifies this
      ensures r == ApplyCheckpoint(old(stored), cp, proof, updatedAt)
      ensures stored == if r.Ok? then Some(r.value.currentState) else old(stored)
    {
      if stored.None? {
        var current := BuildCheckpointState(cp, updatedAt);
        stored := Some(current);
        return Ok(Applied(None, current, true));
      }
      var s := stored.value;
      if s.logId != cp.logId || s.logSigningKeyId != cp.logSigningKeyId { return Err(SplitView); }
      if cp.treeSize < s.highestTreeSize { return Err(Rollback); }
      if cp.treeSize == s.highestTreeSize {
        var sameRoot := s.highestRootHash == cp.rootHash;
        var sameDigest := s.highestCheckpointSha256 == cp.checkpointSha256;
        if !sameRoot || !sameDigest { return Err(SplitView); }
        return Ok(Applied(stored, s, false));
      }
      if proof.None? { return Err(ConsistencyRequired); }
      if || proof.value.oldTreeSize != s.highestTreeSize || proof.value.oldRootHash != s.highestRootHash
         || proof.value.newTreeSize != cp.treeSize || proof.value.newRootHash != cp.rootHash {
        return Err(SplitView);
      }
      var current := BuildCheckpointState(cp, updatedAt);
      stored := Some(current);
      return Ok(Applied(Some(s), current, true));
    }
  }

  // ---------------------------------------------------------------- calls

  /** A consistency proof and the two heads the caller verified it between. */
  datatype Evidence = Evidence(oldHead: TreeHead, newHead: TreeHead, proof: ConsistencyProof)

  datatype Call = Call(checkpoint: Checkpoint, evidence: Option<Evidence>, at: int)

  /** A call whose proof result, if any, comes out of verify_checkpoint_consistency_proof. */
  function PerformCall(h: Hasher, stored: Option<CheckpointState>, call: Call): Result<Applied, ApplyError> {
    match call.evidence
    case None => ApplyCheckpoint(stored, call.checkpoint, None, call.at)
    case Some(e) =>
      match VerifyCheckpointConsistencyProof(h, e.oldHead, e.newHead, e.proof)
      case Err(_) => Err(BadProof)
      case Ok(result) => ApplyCheckpoint(stored, call.checkpoint, Some(result), call.at)
  }

  /** The evidence is a proof of its own two heads. */
  predicate EvidenceHolds(h: Hasher, e: Evidence) {
    var p := e.proof;
    && p.logId == e.oldHead.logId == e.newHead.logId
    && p.oldTreeSize == e.oldHead.treeSize && p.oldRootHash == e.oldHead.rootHash
    && p.newTreeSize == e.newHead.treeSize && p.newRootHash == e.newHead.rootHash
    && ConsistencyAccepted(h, e.oldHead.treeSize, e.newHead.treeSize, e.oldHead.rootHash, e.newHead.rootHash,
                           p.consistencyPath)
  }

  /** The heads of the evidence are the stored one and the one the checkpoint names. */
  predicate Bridges(e: Evidence, s: CheckpointState, cp: Checkpoint) {
    && e.oldHead.treeSize == s.highestTreeSize && e.oldHead.rootHash == s.highestRootHash
    && e.newHead.treeSize == cp.treeSize && e.newHead.rootHash == cp.rootHash
  }

  /**
   A call succeeds exactly when its evidence, if any, holds and nothing is stored yet or the
   checkpoint is of the stored log and key and either repeats the stored one or is larger and
   bridged from it.  It stores what it was given, at its own time, exactly when nothing was
   stored or the tree grew.
   */
  lemma {:induction false} AppliedIffItExtends(h: Hasher, stored: Option<CheckpointState>, call: Call)
    ensures var cp, r := call.checkpoint, PerformCall(h, stored, call);
            && (r.Ok? <==>
                  && (call.evidence.Some? ==> EvidenceHolds(h, call.evidence.value))
                  && (stored == None ||
                      var s := stored.value;
                      && s.logId == cp.logId && s.logSigningKeyId == cp.logSigningKeyId
                      && if s.highestTreeSize == cp.treeSize then
                           s.highestRootHash == cp.rootHash && s.highestCheckpointSha256 == cp.checkpointSha256
                         else
                           && s.highestTreeSize < cp.treeSize && call.evidence.Some?
                           && Bridges(call.evidence.value, s, cp)))
            && (r.Ok? ==>
                  && r.value.storedState == stored
                  && (r.value.updated <==> stored == None || stored.value.highestTreeSize < cp.treeSize)
                  && (if r.value.updated then
                        r.value.currentState
                        == CheckpointState(cp.logId, cp.treeSize, cp.rootHash, cp.checkpointSha256,
                                           cp.logSigningKeyId, call.at)
                      else Some(r.value.currentState) == stored))
  {
    hide ConsistencyAccepted;
  }

  /** A refusal says why: a bad proof, a rollback, a missing proof, or a view that conflicts with the stored one. */
  lemma {:induction false} ApplicationRefusals(h: Hasher, s: CheckpointState, call: Call)
    ensures var cp, r := call.checkpoint, PerformCall(h, Some(s), call);
            var holds := call.evidence.Some? ==> EvidenceHolds(h, call.evidence.value);
            var own := s.logId == cp.logId && s.logSigningKeyId == cp.logSigningKeyId;
            && (r == Err(BadProof) <==> !holds)
            && (r == Err(Rollback) <==> holds && own && cp.treeSize < s.highestTreeSize)
            && (r == Err(ConsistencyRequired) <==> own && s.highestTreeSize < cp.treeSize && call.evidence == None)
            && (r == Err(SplitView) <==>
                  holds
                  && (!own
                      || (cp.treeSize == s.highestTreeSize
                          && (cp.rootHash != s.highestRootHash || cp.checkpointSha256 != s.highestCheckpointSha256))
                      || (s.highestTreeSize < cp.treeSize && call.evidence.Some?
                          && !Bridges(call.evidence.value, s, cp))))
  {
    hide ConsistencyAccepted;
  }

  // ---------------------------------------------------------------- runs

  datatype Trace = Trace(state: Option<CheckpointState>, accepted: seq<Call>)

  /** Any sequence of calls on one state file: the state it leaves and the calls that succeeded. */
  function RunCalls(h: Hasher, start: Option<CheckpointState>, calls: seq<Call>): Trace {
    if calls == [] then Trace(start, [])
    else
      var before := RunCalls(h, start, calls[..|calls| - 1]);
      var call := calls[|calls| - 1];
      match PerformCall(h, before.state, call)
      case Err(_) => before
      case Ok(applied) => Trace(Some(applied.currentState), before.accepted + [call])
  }

  function HeadOfCall(call: Call): AcceptedHead {
    AcceptedHead(call.checkpoint.treeSize, call.checkpoint.rootHash,
                 match call.evidence case None => [] case Some(e) => e.proof.consistencyPath)
  }

  function HeadsOf(calls: seq<Call>): (heads: seq<AcceptedHead>)
    ensures |heads| == |calls| && forall i | 0 <= i < |calls| :: heads[i] == HeadOfCall(calls[i])
  {
    seq(|calls|, i requires 0 <= i < |calls| => HeadOfCall(calls[i]))
  }

  predicate StateShows(s: CheckpointState, cp: Checkpoint) {
    && s.logId == cp.logId && s.logSigningKeyId == cp.logSigningKeyId
    && s.highestTreeSize == cp.treeSize && s.highestRootHash == cp.rootHash
        && s.highestCheckpointSha256 == cp.checkpointSha256
  }

  /** The state a call that advances leaves behind. */
  predicate StateOfCall(s: CheckpointState, call: Call) {
    && StateShows(s, call.checkpoint) && s.updatedAt == call.at
  }

  /** Accepted call k is the first to reach the stored size, and the state is what it stored. */
  predicate ReachedBy(t: Trace, k: nat)
    requires k < |t.accepted|
  {
    && t.state.Some? && StateOfCall(t.state.value, t.accepted[k])
    && (forall i | 0 <= i < k :: t.accepted[i].checkpoint.treeSize < t.state.value.highestTreeSize)
    && (forall i | k <= i < |t.accepted| :: t.accepted[i].checkpoint.treeSize == t.state.value.highestTreeSize)
  }

  /** No accepted call went beyond the state at the start. */
  predicate NeverAdvanced(start: Option<CheckpointState>, t: Trace) {
    && t.state == start
    && (t.accepted != [] ==>
          start.Some? && forall call | call in t.accepted :: call.checkpoint.treeSize == start.value.highestTreeSize)
  }

  /**
   After any calls the state file holds the checkpoint and the time of the first accepted call
   that reached its size, or is still the one at the start.
   */
  lemma {:induction false} StateIsFirstOfItsSize(h: Hasher, start: Option<CheckpointState>, calls: seq<Call>)
    ensures var t := RunCalls(h, start, calls);
            NeverAdvanced(start, t) || exists k | 0 <= k < |t.accepted| :: ReachedBy(t, k)
    decreases |calls|
  {
    hide PerformCall;
    if calls != [] {
      var call := calls[|calls| - 1];
      var before, t := RunCalls(h, start, calls[..|calls| - 1]), RunCalls(h, start, calls);
      StateIsFirstOfItsSize(h, start, calls[..|calls| - 1]);
      AppliedIffItExtends(h, before.state, call);
      var r := PerformCall(h, before.state, call);
      if r.Ok? && r.value.updated {
        assert ReachedBy(t, |before.accepted|);
      } else if r.Ok? && !NeverAdvanced(start, before) {
        var k :| 0 <= k < |before.accepted| && ReachedBy(before, k);
        assert ReachedBy(t, k);
      }
    }
  }

  /** Consecutive accepted calls: same log and key, and the same checkpoint or a proved larger one. */
  predicate CallFollows(h: Hasher, earlier: Call, later: Call) {
    && HeadFollows(h, HeadOfCall(earlier), HeadOfCall(later))
    && later.checkpoint.logId == earlier.checkpoint.logId
    && later.checkpoint.logSigningKeyId == earlier.checkpoint.logSigningKeyId
    && (later.checkpoint.treeSize == earlier.checkpoint.treeSize ==>
          later.checkpoint.checkpointSha256 == earlier.checkpoint.checkpointSha256)
  }

  predicate CallChain(h: Hasher, calls: seq<Call>) {
    forall i | 0 <= i < |calls| - 1 :: CallFollows(h, calls[i], calls[i + 1])
  }

  lemma {:induction false} PerformFollows(h: Hasher, s: CheckpointState, earlier: Call, later: Call)
    requires StateShows(s, earlier.checkpoint)
    requires PerformCall(h, Some(s), later).Ok?
    ensures CallFollows(h, earlier, later)
    ensures StateShows(PerformCall(h, Some(s), later).value.currentState, later.checkpoint)
  {
    hide ConsistencyAccepted;
  }

  lemma {:induction false} RunKeepsChain(h: Hasher, start: Option<CheckpointState>, calls: seq<Call>)
    ensures var t := RunCalls(h, start, calls);
            && CallChain(h, t.accepted)
            && (t.accepted == [] ==> t.state == start)
            && (t.accepted != [] ==>
                  t.state.Some? && StateShows(t.state.value, t.accepted[|t.accepted| - 1].checkpoint))
    decreases |calls|
  {
    hide CallFollows, ConsistencyAccepted;
    if calls != [] {
      RunKeepsChain(h, start, calls[..|calls| - 1]);
      var before := RunCalls(h, start, calls[..|calls| - 1]);
      if before.accepted != [] && PerformCall(h, before.state, calls[|calls| - 1]).Ok? {
        PerformFollows(h, before.state.value, before.accepted[|before.accepted| - 1], calls[|calls| - 1]);
      }
    }
  }

  lemma {:induction false} CallChainHeads(h: Hasher, calls: seq<Call>)
    requires CallChain(h, calls)
    ensures HeadChain(h, HeadsOf(calls))
  {
    hide HeadFollows;
    forall k | 0 <= k < |calls| - 1 ensures HeadFollows(h, HeadsOf(calls)[k], HeadsOf(calls)[k + 1]) {
      assert CallFollows(h, calls[k], calls[k + 1]);
    }
  }

  lemma CallFollowsAgrees(h: Hasher, earlier: Call, later: Call)
    requires CallFollows(h, earlier, later)
    ensures later.checkpoint.logId == earlier.checkpoint.logId
    ensures later.checkpoint.logSigningKeyId == earlier.checkpoint.logSigningKeyId
    ensures later.checkpoint.treeSize == earlier.checkpoint.treeSize ==>
              later.checkpoint.checkpointSha256 == earlier.checkpoint.checkpointSha256
  {
  }

  lemma CallSizes(h: Hasher, calls: seq<Call>, i: nat, j: nat)
    requires HeadChain(h, HeadsOf(calls)) && i <= j < |calls|
    ensures calls[i].checkpoint.treeSize <= calls[j].checkpoint.treeSize
  {
    hide HeadChain, HeadFollows;
    ChainGrows(h, HeadsOf(calls), i, j);
  }

  lemma CallChainStep(h: Hasher, calls: seq<Call>, i: nat)
    requires CallChain(h, calls) && i + 1 < |calls|
    ensures CallFollows(h, calls[i], calls[i + 1])
  {
    hide CallFollows;
  }

  lemma {:induction false} CallChainAgrees(h: Hasher, calls: seq<Call>, i: nat, j: nat)
    requires CallChain(h, calls) && HeadChain(h, HeadsOf(calls)) && i <= j < |calls|
    ensures calls[j].checkpoint.logId == calls[i].checkpoint.logId
    ensures calls[j].checkpoint.logSigningKeyId == calls[i].checkpoint.logSigningKeyId
    ensures calls[i].checkpoint.treeSize == calls[j].checkpoint.treeSize ==>
              calls[i].checkpoint.checkpointSha256 == calls[j].checkpoint.checkpointSha256
    decreases j - i
  {
    hide *;
    if i < j {
      CallChainAgrees(h, calls, i, j - 1);
      CallChainStep(h, calls, j - 1);
      CallFollowsAgrees(h, calls[j - 1], calls[j]);
      CallSizes(h, calls, i, j - 1);
      CallSizes(h, calls, j - 1, j);
    }
  }

  /**
   Over any sequence of applications: of two that succeeded the later one never has a smaller
   tree, the log and its key never change, and one tree size never has two roots or digests.
   */
  lemma {:induction false} AppliedCheckpointsAgree(
    h: Hasher, start: Option<CheckpointState>, calls: seq<Call>, i: nat, j: nat)
    requires i <= j < |RunCalls(h, start, calls).accepted|
    ensures var a, b := RunCalls(h, start, calls).accepted[i].checkpoint,
            RunCalls(h, start, calls).accepted[j].checkpoint;
            && a.treeSize <= b.treeSize
            && a.logId == b.logId && a.logSigningKeyId == b.logSigningKeyId
            && (a.treeSize == b.treeSize ==> a.rootHash == b.rootHash && a.checkpointSha256 == b.checkpointSha256)
  {
    hide CallChain, HeadChain, RunCalls;
    var accepted := RunCalls(h, start, calls).accepted;
    RunKeepsChain(h, start, calls);
    CallChainHeads(h, accepted);
    CallChainAgrees(h, accepted, i, j);
    ChainGrows(h, HeadsOf(accepted), i, j);
  }

  /**
   And the logs behind any two applied checkpoints are prefix-related when those two are genuine,
   whatever roots were applied before, between and after them; or a collision is computed.
   */
  lemma {:induction false} AppliedLogsFormPrefixChain(
    h: Hasher, start: Option<CheckpointState>, calls: seq<Call>, i: nat, j: nat, olds: seq<Digest>, news: seq<Digest>)
    requires i <= j < |RunCalls(h, start, calls).accepted|
    requires var cp := RunCalls(h, start, calls).accepted[i].checkpoint; Genuine(h, cp.treeSize, cp.rootHash, olds)
    requires var cp := RunCalls(h, start, calls).accepted[j].checkpoint; Genuine(h, cp.treeSize, cp.rootHash, news)
    ensures match ChainedHeadsCollision(h, HeadsOf(RunCalls(h, start, calls).accepted), i, j, olds, news)
            case Some(c) => IsCollision(h, c)
            case None => olds <= news
  {
    hide CallChain, HeadChain, RunCalls, Genuine;
    var accepted := RunCalls(h, start, calls).accepted;
    RunKeepsChain(h, start, calls);
    CallChainHeads(h, accepted);
    ChainIsPrefixChain(h, HeadsOf(accepted), i, j, olds, news);
  }
}
