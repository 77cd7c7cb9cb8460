/**
 A stateful witness (app/transparency_witness.py): it signs a statement for a checkpoint
 only if the checkpoint repeats or provably extends the largest one it has seen.
 An Ed25519 signature is modelled by the key and the statement it was made with.
 */
module Witnesses {
  import opened Wrappers
  import opened Hashing
  import opened MerkleConsistency
  import opened Checkpoints

  datatype Statement = Statement(
    logId: string, witnessId: string, checkpointSha256: Digest, treeSize: nat, rootHash: Digest,
        logSigningKeyId: string,
    observedAt: int, previousTreeSize: Option<nat>, previousRootHash: Option<Digest>,
        consistencyProofSha256: Option<Digest>)

  datatype Signature = Signature(key: Key, message: Statement)

  datatype Envelope = Envelope(statement: Statement, signature: Signature, signedAt: int)

  predicate SignatureVerifies(key: Key, e: Envelope) {
    e.signature == Signature(key, e.statement)
  }

  datatype WitnessState = WitnessState(
    logId: string, witnessId: string, highestTreeSize: nat, highestRootHash: Digest, highestCheckpointSha256: Digest,
    logSigningKeyId: string, updatedAt: int)

  datatype Identity = Identity(witnessId: string, key: Key)

  /** A consistency proof file with the digest of its canonical form. */
  datatype ProofFile = ProofFile(proof: ConsistencyProof, sha256: Digest)

  datatype WitnessError = SplitView | Rollback | ProofRequired | ProofMismatch | StatementInvalid

  /** What a completed call returns, and whether it made a new signature. */
  datatype Creation = Creation(envelope: Envelope, state: WitnessState, stateUpdated: bool, signed: bool)

  function BuildWitnessState(cp: Checkpoint, witnessId: string, updatedAt: int): WitnessState {
    WitnessState(cp.logId, witnessId, cp.treeSize, cp.rootHash, cp.checkpointSha256, cp.logSigningKeyId, updatedAt)
  }

  function BuildStatement(
    cp: Checkpoint, witnessId: string, observedAt: int, stored: Option<WitnessState>, proofSha256: Option<Digest>
  ): Statement {
    Statement(cp.logId, witnessId, cp.checkpointSha256, cp.treeSize, cp.rootHash, cp.logSigningKeyId, observedAt,
              match stored case None => None case Some(s) => Some(s.highestTreeSize),
              match stored case None => None case Some(s) => Some(s.highestRootHash),
              proofSha256)
  }

  function Sign(st: Statement, w: Identity, signedAt: int): Envelope {
    Envelope(st, Signature(w.key, st), signedAt)
  }

  /** _validate_checkpoint_against_state */
  function ValidateAgainstState(cp: Checkpoint, s: WitnessState, witnessId: string): Option<WitnessError> {
    if s.logId != cp.logId || s.witnessId != witnessId then Some(SplitView)
    else if cp.treeSize < s.highestTreeSize then Some(Rollback)
    else if cp.treeSize == s.highestTreeSize
            && (s.highestRootHash != cp.rootHash || s.highestCheckpointSha256 != cp.checkpointSha256
                || s.logSigningKeyId != cp.logSigningKeyId) then Some(SplitView)
    else None
  }

  /** _state_matches_checkpoint */
  predicate StateMatches(cp: Checkpoint, s: WitnessState, witnessId: string) {
    && s.logId == cp.logId && s.witnessId == witnessId
    && s.highestTreeSize == cp.treeSize && s.highestRootHash == cp.rootHash
    && s.highestCheckpointSha256 == cp.checkpointSha256 && s.logSigningKeyId == cp.logSigningKeyId
  }

  /** _load_matching_existing_statement */
  predicate ExistingMatches(e: Envelope, cp: Checkpoint, w: Identity) {
    && e.statement.logId == cp.logId && e.statement.witnessId == w.witnessId
    && e.statement.checkpointSha256 == cp.checkpointSha256 && e.statement.treeSize == cp.treeSize
    && e.statement.rootHash == cp.rootHash && e.statement.logSigningKeyId == cp.logSigningKeyId
    && SignatureVerifies(w.key, e)
  }

  /** create_transparency_witness_statement on the stored state and the file at the output path. */
  function CreateStatement(
    h: Hasher, w: Identity, stored: Option<WitnessState>, existing: Option<Envelope>, cp: Checkpoint,
    proof: Option<ProofFile>, observedAt: int
  ): Result<Creation, WitnessError> {
    match stored
    case None =>
      Ok(Creation(Sign(BuildStatement(cp, w.witnessId, observedAt, None, None), w, observedAt),
                  BuildWitnessState(cp, w.witnessId, observedAt), true, true))
    case Some(s) =>
      match ValidateAgainstState(cp, s, w.witnessId)
      case Some(error) => Err(error)
      case None =>
        if StateMatches(cp, s, w.witnessId) then
          match existing
          case Some(e) => if ExistingMatches(e, cp, w) then Ok(Creation(e, s, false, false)) else Err(StatementInvalid)
          case None =>
            Ok(Creation(Sign(BuildStatement(cp, w.witnessId, observedAt, stored, None), w, observedAt), s, false, true))
        else
          match proof
          case None => Err(ProofRequired)
          case Some(p) =>
            var oldHead := TreeHead(s.logId, s.highestTreeSize, s.highestRootHash);
            if VerifyCheckpointConsistencyProof(h, oldHead, HeadOf(cp), p.proof).Err? then Err(ProofMismatch)
            else
              Ok(Creation(Sign(BuildStatement(cp, w.witnessId, observedAt, stored, Some(p.sha256)), w, observedAt),
                          BuildWitnessState(cp, w.witnessId, observedAt), true, true))
  }

  class WitnessFiles {
    const hasher: Hasher
    const identity: Identity
    var stored: Option<WitnessState>
    var outputs: map<string, Envelope>

    constructor (hasher: Hasher, identity: Identity)
      ensures this.hasher == hasher && this.identity == identity
      ensures stored == None && outputs == map[]
    {
      this.hasher, this.identity := hasher, identity;
      stored, outputs := None, map[];
    }

    function OutputAt(path: string): (existing: Option<Envelope>)
      reads this
      ensures path in outputs <==> existing.Some?
      ensures path in outputs ==> outputs[path] == existing.value
    {
      if path in outputs then Some(outputs[path]) else None
    }

    /** A completed call: the statement file is written before the state file. */
    method Create(cp: Checkpoint, path: string, proof: Option<ProofFile>, observedAt: int)
      returns (r: Result<Creation, WitnessError>)
      modifies this
      ensures r == CreateStatement(hasher, identity, old(stored), old(OutputAt(path)), cp, proof, observedAt)
      ensures stored == if r.Ok? then Some(r.value.state) else old(stored)
      ensures outputs == if r.Ok? && r.value.signed then old(outputs)[path := r.value.envelope] else old(outputs)
    {
      var proofSha256: Option<Digest> := None;
      if stored.Some? {
        var s := stored.value;
        var error := ValidateAgainstState(cp, s, identity.witnessId);
        if error.Some? { return Err(error.value); }
        if StateMatches(cp, s, identity.witnessId) {
          var envelope: Envelope;
          if path in outputs {
            envelope := outputs[path];
            if !ExistingMatches(envelope, cp, identity) { return Err(StatementInvalid); }
            return Ok(Creation(envelope, s, false, false));
          }
          var statement := BuildStatement(cp, identity.witnessId, observedAt, stored, None);
          envelope := Sign(statement, identity, observedAt);
          outputs := outputs[path := envelope];
          return Ok(Creation(envelope, s, false, true));
        }
        if cp.treeSize > s.highestTreeSize {
          if proof.None? { return Err(ProofRequired); }
          var oldHead := TreeHead(s.logId, s.highestTreeSize, s.highestRootHash);
          var verified := VerifyCheckpointConsistencyProof(hasher, oldHead, HeadOf(cp), proof.value.proof);
          if verified.Err? { return Err(ProofMismatch); }
          proofSha256 := Some(proof.value.sha256);
        }
      }
      var statement := BuildStatement(cp, identity.witnessId, observedAt, stored, proofSha256);
      var envelope := Sign(statement, identity, observedAt);
      var current := BuildWitnessState(cp, identity.witnessId, observedAt);
      outputs := outputs[path := envelope];
      stored := Some(current);
      return Ok(Creation(envelope, current, true, true));
    }
  }

  // ---------------------------------------------------------------- runs

  datatype Call = Call(checkpoint: Checkpoint, existing: Option<Envelope>, proof: Option<ProofFile>, at: int)

  /** A new signature, the consistency path it was made on, its time and the call that asked for it. */
  datatype Signed = Signed(statement: Statement, path: seq<Digest>, signedAt: int, call: Call)

  datatype Trace = Trace(state: Option<WitnessState>, signed: seq<Signed>)

  function SignedBy(call: Call, c: Creation): Signed {
    Signed(c.envelope.statement, match call.proof case None => [] case Some(p) => p.proof.consistencyPath,
           c.envelope.signedAt, call)
  }

  /** Any sequence of completed calls on one state file, whatever lies at the output paths. */
  function RunCalls(h: Hasher, w: Identity, start: Option<WitnessState>, calls: seq<Call>): Trace {
    if calls == [] then Trace(start, [])
    else
      var before := RunCalls(h, w, start, calls[..|calls| - 1]);
      var call := calls[|calls| - 1];
      match CreateStatement(h, w, before.state, call.existing, call.checkpoint, call.proof, call.at)
      case Err(_) => before
      case Ok(c) => Trace(Some(c.state), if c.signed then before.signed + [SignedBy(call, c)] else before.signed)
  }

  function HeadOfSigned(s: Signed): AcceptedHead {
    AcceptedHead(s.statement.treeSize, s.statement.rootHash, s.path)
  }

  function HeadsOf(signed: seq<Signed>): (heads: seq<AcceptedHead>)
    ensures |heads| == |signed| && forall i | 0 <= i < |signed| :: heads[i] == HeadOfSigned(signed[i])
  {
    seq(|signed|, i requires 0 <= i < |signed| => HeadOfSigned(signed[i]))
  }

  predicate StateShows(s: WitnessState, st: Statement) {
    && s.logId == st.logId && s.witnessId == st.witnessId && s.logSigningKeyId == st.logSigningKeyId
    && s.highestTreeSize == st.treeSize && s.highestRootHash == st.rootHash
    && s.highestCheckpointSha256 == st.checkpointSha256
  }

  /** Consecutive signatures: one log, and the same checkpoint under the same key, or a proved larger one. */
  predicate SignedFollows(h: Hasher, earlier: Signed, later: Signed) {
    && HeadFollows(h, HeadOfSigned(earlier), HeadOfSigned(later))
    && later.statement.logId == earlier.statement.logId
    && (later.statement.treeSize == earlier.statement.treeSize ==>
          && later.statement.checkpointSha256 == earlier.statement.checkpointSha256
          && later.statement.logSigningKeyId == earlier.statement.logSigningKeyId)
  }

  predicate SignedChain(h: Hasher, signed: seq<Signed>) {
    forall i | 0 <= i < |signed| - 1 :: SignedFollows(h, signed[i], signed[i + 1])
  }

  lemma {:induction false} CreationFollows(h: Hasher, w: Identity, s: WitnessState, earlier: Signed, call: Call)
    requires StateShows(s, earlier.statement)
    requires CreateStatement(h, w, Some(s), call.existing, call.checkpoint, call.proof, call.at).Ok?
    ensures var c := CreateStatement(h, w, Some(s), call.existing, call.checkpoint, call.proof, call.at).value;
            if c.signed then SignedFollows(h, earlier, SignedBy(call, c)) && StateShows(c.state, c.envelope.statement)
            else c.state == s
  {
    hide ConsistencyAccepted;
  }

  lemma {:induction false} CreationShows(h: Hasher, w: Identity, stored: Option<WitnessState>, call: Call)
    requires CreateStatement(h, w, stored, call.existing, call.checkpoint, call.proof, call.at).Ok?
    ensures var c := CreateStatement(h, w, stored, call.existing, call.checkpoint, call.proof, call.at).value;
            c.signed ==>
              && StateShows(c.state, c.envelope.statement)
              && c.envelope == Sign(c.envelope.statement, w, call.at)
              && c.envelope.statement.witnessId == w.witnessId
  {
    hide VerifyCheckpointConsistencyProof;
  }

  lemma {:induction false} RunKeepsChain(h: Hasher, w: Identity, start: Option<WitnessState>, calls: seq<Call>)
    ensures var t := RunCalls(h, w, start, calls);
            && SignedChain(h, t.signed)
            && (t.signed != [] ==> t.state.Some? && StateShows(t.state.value, t.signed[|t.signed| - 1].statement))
    decreases |calls|
  {
    hide SignedFollows, CreateStatement, StateShows;
    if calls != [] {
      RunKeepsChain(h, w, start, calls[..|calls| - 1]);
      var before := RunCalls(h, w, start, calls[..|calls| - 1]);
      var call := calls[|calls| - 1];
      if CreateStatement(h, w, before.state, call.existing, call.checkpoint, call.proof, call.at).Ok? {
        CreationShows(h, w, before.state, call);
        if before.signed != [] {
          CreationFollows(h, w, before.state.value, before.signed[|before.signed| - 1], call);
        }
      }
    }
  }

  // ---------------------------------------------------------------- what a call signs

  /**
   When a call completes: there is no state yet, or the checkpoint is of the same log and either
   repeats the witnessed one, with at most a matching statement at the output path, or is larger
   and comes with an accepted proof from the witnessed head to it.
   */
  predicate MayWitness(h: Hasher, w: Identity, stored: Option<WitnessState>, call: Call) {
    var cp := call.checkpoint;
    stored == None ||
    var s := stored.value;
    && s.logId == cp.logId && s.witnessId == w.witnessId
    && if s.highestTreeSize == cp.treeSize then
         && s.highestRootHash == cp.rootHash && s.highestCheckpointSha256 == cp.checkpointSha256
         && s.logSigningKeyId == cp.logSigningKeyId
         && (call.existing == None ||
             var e := call.existing.value;
             && e.statement.logId == cp.logId && e.statement.witnessId == w.witnessId
             && e.statement.treeSize == cp.treeSize && e.statement.rootHash == cp.rootHash
             && e.statement.checkpointSha256 == cp.checkpointSha256
             && e.statement.logSigningKeyId == cp.logSigningKeyId
             && e.signature == Signature(w.key, e.statement))
       else
         && s.highestTreeSize < cp.treeSize && call.proof.Some?
         && var p := call.proof.value.proof;
            && p.logId == cp.logId
            && p.oldTreeSize == s.highestTreeSize && p.oldRootHash == s.highestRootHash
            && p.newTreeSize == cp.treeSize && p.newRootHash == cp.rootHash
            && ConsistencyAccepted(h, s.highestTreeSize, cp.treeSize, s.highestRootHash, cp.rootHash, p.consistencyPath)
  }

  /** Whether the checkpoint goes beyond what the witness has stored. */
  predicate Advances(stored: Option<WitnessState>, cp: Checkpoint) {
    stored == None || stored.value.highestTreeSize < cp.treeSize
  }

  /** The statement a call signs: the checkpoint, the time, the stored head and the digest of the proof from it. */
  predicate StatementOf(st: Statement, w: Identity, stored: Option<WitnessState>, call: Call) {
    var cp := call.checkpoint;
    && st.logId == cp.logId && st.witnessId == w.witnessId && st.logSigningKeyId == cp.logSigningKeyId
    && st.checkpointSha256 == cp.checkpointSha256 && st.treeSize == cp.treeSize && st.rootHash == cp.rootHash
    && st.observedAt == call.at
    && match stored
       case None => st.previousTreeSize == None && st.previousRootHash == None && st.consistencyProofSha256 == None
       case Some(s) =>
         && st.previousTreeSize == Some(s.highestTreeSize) && st.previousRootHash == Some(s.highestRootHash)
         && if s.highestTreeSize < cp.treeSize then
              call.proof.Some? && st.consistencyProofSha256 == Some(call.proof.value.sha256)
            else st.consistencyProofSha256 == None
  }

  /**
   A call completes exactly when it may, signs exactly when there is no statement to reuse, and
   then signs and stores what it was asked to, with its own key and at its own time.
   */
  lemma {:induction false} CreationIsAsAsked(h: Hasher, w: Identity, stored: Option<WitnessState>, call: Call)
    ensures CreateStatement(h, w, stored, call.existing, call.checkpoint, call.proof, call.at).Ok?
            <==> MayWitness(h, w, stored, call)
    ensures MayWitness(h, w, stored, call) ==>
              var c := CreateStatement(h, w, stored, call.existing, call.checkpoint, call.proof, call.at).value;
              && (c.signed <==> Advances(stored, call.checkpoint) || call.existing == None)
              && (if c.signed then
                    && StatementOf(c.envelope.statement, w, stored, call)
                    && c.envelope.signature == Signature(w.key, c.envelope.statement)
                    && c.envelope.signedAt == call.at
                  else Some(c.envelope) == call.existing)
              && (c.stateUpdated <==> Advances(stored, call.checkpoint))
              && (if c.stateUpdated then
                    var cp := call.checkpoint;
                    c.state == WitnessState(cp.logId, w.witnessId, cp.treeSize, cp.rootHash, cp.checkpointSha256,
                                            cp.logSigningKeyId, call.at)
                  else Some(c.state) == stored)
  {
    hide ConsistencyAccepted;
  }

  /** A refusal says why: what conflicts, what rolls back, and which proof or statement is missing or wrong. */
  lemma {:induction false} RefusalSaysWhy(h: Hasher, w: Identity, s: WitnessState, call: Call)
    ensures var cp, r := call.checkpoint,
                         CreateStatement(h, w, Some(s), call.existing, call.checkpoint, call.proof, call.at);
            var own := s.logId == cp.logId && s.witnessId == w.witnessId;
            var same := s.highestRootHash == cp.rootHash && s.highestCheckpointSha256 == cp.checkpointSha256
                        && s.logSigningKeyId == cp.logSigningKeyId;
            && (r == Err(Rollback) <==> own && cp.treeSize < s.highestTreeSize)
            && (r == Err(SplitView) <==> !own || (cp.treeSize == s.highestTreeSize && !same))
            && (r == Err(ProofRequired) <==> own && cp.treeSize > s.highestTreeSize && call.proof == None)
            && (r == Err(ProofMismatch) <==>
                  own && cp.treeSize > s.highestTreeSize && call.proof.Some? && !MayWitness(h, w, Some(s), call))
            && (r == Err(StatementInvalid) <==>
                  own && cp.treeSize == s.highestTreeSize && same && !MayWitness(h, w, Some(s), call))
  {
    hide ConsistencyAccepted;
  }

  /** What statement i of a run names as witnessed before: the statement before it, or the state the run began with. */
  predicate NamesPredecessor(start: Option<WitnessState>, signed: seq<Signed>, i: nat)
    requires i < |signed|
  {
    var st := signed[i].statement;
    if i > 0 then
      && st.previousTreeSize == Some(signed[i - 1].statement.treeSize)
      && st.previousRootHash == Some(signed[i - 1].statement.rootHash)
    else
      match start
      case None => st.previousTreeSize == None && st.previousRootHash == None
      case Some(s) => st.previousTreeSize == Some(s.highestTreeSize) && st.previousRootHash == Some(s.highestRootHash)
  }

  /** And what it says of its own call: whose checkpoint, at what time, on what proof. */
  predicate AnswersItsCall(w: Identity, s: Signed) {
    var st, cp := s.statement, s.call.checkpoint;
    && st.logId == cp.logId && st.witnessId == w.witnessId && st.logSigningKeyId == cp.logSigningKeyId
    && st.checkpointSha256 == cp.checkpointSha256 && st.treeSize == cp.treeSize && st.rootHash == cp.rootHash
    && st.observedAt == s.call.at == s.signedAt
    && if st.previousTreeSize.Some? && st.previousTreeSize.value < st.treeSize then
         s.call.proof.Some? && st.consistencyProofSha256 == Some(s.call.proof.value.sha256)
       else st.consistencyProofSha256 == None
  }

  lemma StatementAnswers(w: Identity, stored: Option<WitnessState>, call: Call, s: Signed)
    requires StatementOf(s.statement, w, stored, call) && s.call == call && s.signedAt == call.at
    ensures AnswersItsCall(w, s)
  {
  }

  /**
   The statements of any run of completed calls form one signed account: each names the head
   signed before it, the first the state at the start, and answers the call it was made for.
   */
  lemma {:induction false} StatementsFormAnAccount(
    h: Hasher, w: Identity, start: Option<WitnessState>, calls: seq<Call>, i: nat)
    requires i < |RunCalls(h, w, start, calls).signed|
    ensures NamesPredecessor(start, RunCalls(h, w, start, calls).signed, i)
    ensures AnswersItsCall(w, RunCalls(h, w, start, calls).signed[i])
    decreases |calls|
  {
    hide CreateStatement, MayWitness, StateShows, SignedChain;
    var before, call := RunCalls(h, w, start, calls[..|calls| - 1]), calls[|calls| - 1];
    if i < |before.signed| {
      StatementsFormAnAccount(h, w, start, calls[..|calls| - 1], i);
    } else {
      CreationIsAsAsked(h, w, before.state, call);
      RunStateShows(h, w, start, calls[..|calls| - 1]);
      StatementAnswers(w, before.state, call, RunCalls(h, w, start, calls).signed[i]);
    }
  }

  // The stored head is that of the last statement, or the one at the start.
  lemma {:induction false} RunStateShows(h: Hasher, w: Identity, start: Option<WitnessState>, calls: seq<Call>)
    ensures var t := RunCalls(h, w, start, calls);
            if t.signed == [] then t.state == start
            else
              var last := t.signed[|t.signed| - 1].statement;
              && t.state.Some? && t.state.value.highestTreeSize == last.treeSize
              && t.state.value.highestRootHash == last.rootHash
    decreases |calls|
  {
    hide CreateStatement;
    if calls != [] {
      var before, call := RunCalls(h, w, start, calls[..|calls| - 1]), calls[|calls| - 1];
      RunStateShows(h, w, start, calls[..|calls| - 1]);
      CreationIsAsAsked(h, w, before.state, call);
    }
  }

  lemma {:induction false} SignedChainHeads(h: Hasher, signed: seq<Signed>)
    requires SignedChain(h, signed)
    ensures HeadChain(h, HeadsOf(signed))
  {
    hide HeadFollows;
    forall k | 0 <= k < |signed| - 1 ensures HeadFollows(h, HeadsOf(signed)[k], HeadsOf(signed)[k + 1]) {
      assert SignedFollows(h, signed[k], signed[k + 1]);
    }
  }

  lemma {:induction false} SignedChainAgrees(h: Hasher, signed: seq<Signed>, i: nat, j: nat)
    requires SignedChain(h, signed) && HeadChain(h, HeadsOf(signed)) && i <= j < |signed|
    ensures signed[j].statement.logId == signed[i].statement.logId
    ensures signed[i].statement.treeSize == signed[j].statement.treeSize ==>
              && signed[i].statement.checkpointSha256 == signed[j].statement.checkpointSha256
              && signed[i].statement.logSigningKeyId == signed[j].statement.logSigningKeyId
    decreases j - i
  {
    hide HeadFollows, HeadChain;
    if i < j {
      SignedChainAgrees(h, signed, i, j - 1);
      assert SignedFollows(h, signed[j - 1], signed[j - 1 + 1]);
      ChainGrows(h, HeadsOf(signed), i, j - 1);
      ChainGrows(h, HeadsOf(signed), j - 1, j);
    }
  }

  /**
   Over any completed calls a witness never signs conflicting statements: one log, sizes that
   never drop, and for one size one root, one checkpoint and one log key.
   */
  lemma {:induction false} WitnessNeverConflicts(
    h: Hasher, w: Identity, start: Option<WitnessState>, calls: seq<Call>, i: nat, j: nat)
    requires i <= j < |RunCalls(h, w, start, calls).signed|
    ensures var a, b := RunCalls(h, w, start, calls).signed[i].statement,
            RunCalls(h, w, start, calls).signed[j].statement;
            && a.logId == b.logId && a.treeSize <= b.treeSize
            && (a.treeSize == b.treeSize ==>
                  && a.rootHash == b.rootHash && a.checkpointSha256 == b.checkpointSha256
                  && a.logSigningKeyId == b.logSigningKeyId)
  {
    hide SignedChain, HeadChain, RunCalls;
    var signed := RunCalls(h, w, start, calls).signed;
    RunKeepsChain(h, w, start, calls);
    SignedChainHeads(h, signed);
    SignedChainAgrees(h, signed, i, j);
    ChainGrows(h, HeadsOf(signed), i, j);
  }

  /**
   And the logs behind any two statements are prefix-related when those two roots are genuine,
   whatever else the witness signed; or a collision is computed.
   */
  lemma {:induction false} WitnessedLogsFormPrefixChain(
    h: Hasher, w: Identity, start: Option<WitnessState>, calls: seq<Call>, i: nat, j: nat, olds: seq<Digest>,
        news: seq<Digest>)
    requires i <= j < |RunCalls(h, w, start, calls).signed|
    requires var st := RunCalls(h, w, start, calls).signed[i].statement; Genuine(h, st.treeSize, st.rootHash, olds)
    requires var st := RunCalls(h, w, start, calls).signed[j].statement; Genuine(h, st.treeSize, st.rootHash, news)
    ensures match ChainedHeadsCollision(h, HeadsOf(RunCalls(h, w, start, calls).signed), i, j, olds, news)
            case Some(c) => IsCollision(h, c)
            case None => olds <= news
  {
    hide SignedChain, HeadChain, RunCalls, Genuine;
    var signed := RunCalls(h, w, start, calls).signed;
    RunKeepsChain(h, w, start, calls);
    SignedChainHeads(h, signed);
    ChainIsPrefixChain(h, HeadsOf(signed), i, j, olds, news);
  }
}
