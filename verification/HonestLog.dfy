/**
 The other half of the state machines' guarantees: a log that only grows, with one checkpoint
 per size and generated proofs, is never refused by a checkpoint state or by a witness
 (app/transparency_checkpoint_state.py, app/transparency_witness.py).
 */
module HonestLog {
  import opened Wrappers
  import opened Hashing
  import opened MerkleTree
  import opened MerkleConsistency
  import opened TransparencyLog
  import opened Checkpoints
  import CS = CheckpointStates
  import W = Witnesses

  /** A checkpoint of the first treeSize entries of the log. */
  predicate OfLog(h: Hasher, es: seq<Digest>, cp: Checkpoint) {
    1 <= cp.treeSize <= |es| && cp.rootHash == MerkleRoot(h, es[..cp.treeSize])
  }

  /** Successive checkpoints of one log: sizes do not drop, and one size has one checkpoint and one log key. */
  predicate Succeeds(earlier: Checkpoint, later: Checkpoint) {
    && later.logId == earlier.logId
    && earlier.treeSize <= later.treeSize
    && (earlier.treeSize == later.treeSize ==>
          earlier.checkpointSha256 == later.checkpointSha256 && earlier.logSigningKeyId == later.logSigningKeyId)
  }

  predicate Honest(h: Hasher, es: seq<Digest>, cps: seq<Checkpoint>) {
    && |es| <= MAX_LOG_ENTRIES
    && (forall i | 0 <= i < |cps| :: OfLog(h, es, cps[i]))
    && (forall i | 0 <= i < |cps| - 1 :: Succeeds(cps[i], cps[i + 1]))
  }

  /** The proof generated from the log as it was at the later checkpoint. */
  function ProofBetween(h: Hasher, es: seq<Digest>, a: Checkpoint, b: Checkpoint): ConsistencyProof
    requires 1 <= a.treeSize <= b.treeSize <= |es|
  {
    GeneratedPathAccepted(h, es[..b.treeSize], a.treeSize, b.treeSize);
    ConsistencyProof(b.logId, a.treeSize, b.treeSize, a.rootHash, b.rootHash,
                     GenerateConsistencyPath(h, es[..b.treeSize], a.treeSize, b.treeSize).value)
  }

  lemma {:induction false} ProofBetweenVerifies(h: Hasher, es: seq<Digest>, a: Checkpoint, b: Checkpoint)
    requires |es| <= MAX_LOG_ENTRIES && OfLog(h, es, a) && OfLog(h, es, b) && Succeeds(a, b)
    ensures VerifyCheckpointConsistencyProof(h, HeadOf(a), HeadOf(b), ProofBetween(h, es, a, b))
            == Ok(ConsistencyResult(b.logId, a.treeSize, b.treeSize, a.rootHash, b.rootHash))
  {
    hide MerkleRoot, ConsistencyAccepted, ConsistencySubproof, Pow2;
    var log := es[..b.treeSize];
    assert log[..b.treeSize] == log && log[..a.treeSize] == es[..a.treeSize];
    Pow2Of17();
    ConsistencyPathBound(h, log, a.treeSize, b.treeSize, 17);
    GeneratedPathAccepted(h, log, a.treeSize, b.treeSize);
  }

  // ---------------------------------------------------------------- the checkpoint state

  /** A call for the checkpoint after `a`, under the same log key, with the generated proof between the two. */
  predicate AppliesAfter(h: Hasher, es: seq<Digest>, a: Checkpoint, call: CS.Call) {
    && OfLog(h, es, a) && OfLog(h, es, call.checkpoint) && Succeeds(a, call.checkpoint)
    && call.checkpoint.logSigningKeyId == a.logSigningKeyId
    && call.evidence == Some(CS.Evidence(HeadOf(a), HeadOf(call.checkpoint), ProofBetween(h, es, a, call.checkpoint)))
  }

  predicate AppliesEach(h: Hasher, es: seq<Digest>, cps: seq<Checkpoint>, calls: seq<CS.Call>) {
    && |calls| == |cps|
    && (forall i | 0 <= i < |calls| :: calls[i].checkpoint == cps[i])
    && (calls != [] ==> calls[0].evidence == None)
    && forall i | 0 <= i < |calls| - 1 :: AppliesAfter(h, es, cps[i], calls[i + 1])
  }

  lemma {:induction false} NextIsApplied(
      h: Hasher, es: seq<Digest>, s: CS.CheckpointState, a: Checkpoint, call: CS.Call)
    requires |es| <= MAX_LOG_ENTRIES && CS.StateShows(s, a) && AppliesAfter(h, es, a, call)
    ensures var r := CS.PerformCall(h, Some(s), call); r.Ok? && CS.StateShows(r.value.currentState, call.checkpoint)
  {
    hide MerkleRoot, VerifyCheckpointConsistencyProof, ProofBetween;
    ProofBetweenVerifies(h, es, a, call.checkpoint);
    assert a.treeSize == call.checkpoint.treeSize ==> a.rootHash == call.checkpoint.rootHash;
  }

  lemma AppliesEachPrefix(h: Hasher, es: seq<Digest>, cps: seq<Checkpoint>, calls: seq<CS.Call>)
    requires cps != [] && Honest(h, es, cps) && AppliesEach(h, es, cps, calls)
    ensures var last := |cps| - 1;
            && |calls| == |cps| && Honest(h, es, cps[..last]) && AppliesEach(h, es, cps[..last], calls[..last])
            && calls[last].checkpoint == cps[last] && |es| <= MAX_LOG_ENTRIES
            && (if last == 0 then calls[0].evidence == None
                else AppliesAfter(h, es, cps[..last][last - 1], calls[last]))
  {
    hide OfLog, Succeeds, AppliesAfter;
    var last := |cps| - 1;
    if last > 0 { assert AppliesAfter(h, es, cps[last - 1], calls[last - 1 + 1]); }
  }

  lemma RunOfNext(h: Hasher, calls: seq<CS.Call>)
    requires calls != []
    ensures var before, call := CS.RunCalls(h, None, calls[..|calls| - 1]), calls[|calls| - 1];
            var r := CS.PerformCall(h, before.state, call);
            r.Ok? ==> CS.RunCalls(h, None, calls) == CS.Trace(Some(r.value.currentState), before.accepted + [call])
  {
    hide CS.PerformCall;
  }

  /** Every checkpoint of an honest log that keeps its key is applied. */
  lemma {:induction false} HonestLogIsApplied(h: Hasher, es: seq<Digest>, cps: seq<Checkpoint>, calls: seq<CS.Call>)
    requires Honest(h, es, cps) && AppliesEach(h, es, cps, calls)
    ensures var t := CS.RunCalls(h, None, calls);
            && t.accepted == calls
            && (cps == [] ==> t.state == None)
            && (cps != [] ==> t.state.Some? && CS.StateShows(t.state.value, cps[|cps| - 1]))
    decreases |cps|
  {
    hide *;
    if cps == [] {
      NothingApplied(h, es, calls);
    } else {
      var last := |cps| - 1;
      AppliesEachPrefix(h, es, cps, calls);
      HonestLogIsApplied(h, es, cps[..last], calls[..last]);
      RunOfNext(h, calls);
      assert calls == calls[..last] + [calls[last]];
      if last == 0 {
        FirstIsApplied(h, calls[0]);
      } else {
        NextIsApplied(h, es, CS.RunCalls(h, None, calls[..last]).state.value, cps[last - 1], calls[last]);
      }
    }
  }

  lemma NothingApplied(h: Hasher, es: seq<Digest>, calls: seq<CS.Call>)
    requires AppliesEach(h, es, [], calls)
    ensures calls == [] && CS.RunCalls(h, None, calls) == CS.Trace(None, [])
  {
  }

  lemma FirstIsApplied(h: Hasher, call: CS.Call)
    requires call.evidence == None
    ensures var r := CS.PerformCall(h, None, call); r.Ok? && CS.StateShows(r.value.currentState, call.checkpoint)
  {
  }

  // ---------------------------------------------------------------- the witness

  /** A request at a fresh path for the checkpoint after `a`, with the generated proof between the two. */
  predicate AsksAfter(h: Hasher, es: seq<Digest>, a: Checkpoint, call: W.Call) {
    && OfLog(h, es, a) && OfLog(h, es, call.checkpoint) && Succeeds(a, call.checkpoint)
    && call.proof.Some? && call.proof.value.proof == ProofBetween(h, es, a, call.checkpoint)
  }

  predicate AsksForEach(h: Hasher, es: seq<Digest>, cps: seq<Checkpoint>, calls: seq<W.Call>) {
    && |calls| == |cps|
    && (forall i | 0 <= i < |calls| :: calls[i].checkpoint == cps[i] && calls[i].existing == None)
    && forall i | 0 <= i < |calls| - 1 :: AsksAfter(h, es, cps[i], calls[i + 1])
  }

  /** The witness state is at this checkpoint. */
  predicate WitnessAt(s: W.WitnessState, w: W.Identity, cp: Checkpoint) {
    W.StateMatches(cp, s, w.witnessId)
  }

  predicate Attests(st: W.Statement, w: W.Identity, cp: Checkpoint) {
    && st.witnessId == w.witnessId && st.logId == cp.logId && st.treeSize == cp.treeSize && st.rootHash == cp.rootHash
    && st.checkpointSha256 == cp.checkpointSha256 && st.logSigningKeyId == cp.logSigningKeyId
  }

  lemma {:induction false} NextIsSigned(
      h: Hasher, w: W.Identity, es: seq<Digest>, s: W.WitnessState, a: Checkpoint, call: W.Call)
    requires |es| <= MAX_LOG_ENTRIES && WitnessAt(s, w, a) && call.existing == None && AsksAfter(h, es, a, call)
    ensures var r := W.CreateStatement(h, w, Some(s), None, call.checkpoint, call.proof, call.at);
            && r.Ok? && r.value.signed && Attests(r.value.envelope.statement, w, call.checkpoint)
            && WitnessAt(r.value.state, w, call.checkpoint)
  {
    hide MerkleRoot, VerifyCheckpointConsistencyProof, ProofBetween;
    ProofBetweenVerifies(h, es, a, call.checkpoint);
    assert a.treeSize == call.checkpoint.treeSize ==> a.rootHash == call.checkpoint.rootHash;
  }

  lemma FirstIsSigned(h: Hasher, w: W.Identity, call: W.Call)
    requires call.existing == None
    ensures var r := W.CreateStatement(h, w, None, None, call.checkpoint, call.proof, call.at);
            && r.Ok? && r.value.signed && Attests(r.value.envelope.statement, w, call.checkpoint)
            && WitnessAt(r.value.state, w, call.checkpoint)
  {
  }

  /** A witness signs every checkpoint of an honest log, also when the log key changes as the tree grows. */
  lemma {:induction false} HonestLogIsWitnessed(
      h: Hasher, w: W.Identity, es: seq<Digest>, cps: seq<Checkpoint>, calls: seq<W.Call>)
    requires Honest(h, es, cps) && AsksForEach(h, es, cps, calls)
    ensures var t := W.RunCalls(h, w, None, calls);
            && |t.signed| == |cps|
            && (forall i | 0 <= i < |cps| :: Attests(t.signed[i].statement, w, cps[i]))
            && (cps == [] ==> t.state == None)
            && (cps != [] ==> t.state.Some? && WitnessAt(t.state.value, w, cps[|cps| - 1]))
    decreases |cps|
  {
    hide OfLog, Succeeds, AsksAfter, W.CreateStatement, WitnessAt, Attests;
    if cps != [] {
      var last := |cps| - 1;
      var before := W.RunCalls(h, w, None, calls[..last]);
      HonestLogIsWitnessed(h, w, es, cps[..last], calls[..last]);
      if last == 0 {
        FirstIsSigned(h, w, calls[0]);
      } else {
        assert AsksAfter(h, es, cps[last - 1], calls[last - 1 + 1]);
        NextIsSigned(h, w, es, before.state.value, cps[last - 1], calls[last]);
      }
    }
  }
}
