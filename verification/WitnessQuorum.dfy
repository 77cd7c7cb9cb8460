/**
 The witness trust store (app/transparency_witness_trust.py), the verification of one
 statement and the quorum over many (app/transparency_quorum.py).
 */
module WitnessQuorum {
  import opened Wrappers
  import opened Hashing
  import opened Checkpoints
  import opened Witnesses

  datatype Status = Active | VerifyOnly | Revoked

  datatype RevokedPolicy = Reject | AllowPreRevocation

  datatype TrustEntry = TrustEntry(
    witnessId: string, publicKey: Key, status: Status, validFrom: int, validUntil: Option<int>, revokedAt: Option<int>)

  datatype TrustStore = TrustStore(logId: string, minimumQuorum: int, witnesses: seq<TrustEntry>)

  datatype QuorumError = StoreInvalid | StatementRejected | NotTrusted | Equivocation | QuorumInvalid | NotSatisfied

  // ---------------------------------------------------------------- the trust store

  predicate DistinctIds(ws: seq<TrustEntry>) {
    forall i, j | 0 <= i < j < |ws| :: ws[i].witnessId != ws[j].witnessId
  }

  predicate DistinctKeys(ws: seq<TrustEntry>) {
    forall i, j | 0 <= i < j < |ws| :: ws[i].publicKey != ws[j].publicKey
  }

  function ActiveWitnesses(ws: seq<TrustEntry>): set<int> {
    set i | 0 <= i < |ws| && ws[i].status.Active?
  }

  predicate ValidStore(store: TrustStore) {
    && DistinctIds(store.witnesses)
    && DistinctKeys(store.witnesses)
    && |ActiveWitnesses(store.witnesses)| >= store.minimumQuorum
  }

  lemma {:induction false} ActiveWitnessesStep(ws: seq<TrustEntry>, n: nat)
    requires n < |ws|
    ensures |ActiveWitnesses(ws[..n + 1])| == |ActiveWitnesses(ws[..n])| + if ws[n].status.Active? then 1 else 0
  {
    if ws[n].status.Active? {
      assert ActiveWitnesses(ws[..n + 1]) == ActiveWitnesses(ws[..n]) + {n};
    } else {
      assert ActiveWitnesses(ws[..n + 1]) == ActiveWitnesses(ws[..n]);
    }
  }

  /** _validate_store */
  method ValidateStore(store: TrustStore) returns (ok: bool)
    ensures ok <==> ValidStore(store)
  {
    var ws := store.witnesses;
    var ids: set<string>, keys: set<Key>, activeCount := {}, {}, 0;
    for n := 0 to |ws|
      invariant DistinctIds(ws[..n]) && DistinctKeys(ws[..n])
      invariant ids == set i | 0 <= i < n :: ws[i].witnessId
      invariant keys == set i | 0 <= i < n :: ws[i].publicKey
      invariant activeCount == |ActiveWitnesses(ws[..n])|
    {
      var entry := ws[n];
      if entry.witnessId in ids { return false; }
      ids := ids + {entry.witnessId};
      if entry.publicKey in keys { return false; }
      keys := keys + {entry.publicKey};
      ActiveWitnessesStep(ws, n);
      if entry.status.Active? {
        activeCount := activeCount + 1;
      }
    }
    assert ws[..|ws|] == ws;
    return activeCount >= store.minimumQuorum;
  }

  function ActiveIds(ws: seq<TrustEntry>): set<string> {
    set w | w in ws && w.status == Active :: w.witnessId
  }

  lemma ActiveIdsSnoc(ws: seq<TrustEntry>, w: TrustEntry)
    requires forall x | x in ws :: x.witnessId != w.witnessId
    ensures |ActiveIds(ws + [w])| == |ActiveIds(ws)| + if w.status == Active then 1 else 0
  {
    assert forall x :: x in ws + [w] <==> x in ws || x == w;
    if w.status == Active {
      assert ActiveIds(ws + [w]) == ActiveIds(ws) + {w.witnessId};
    } else {
      assert ActiveIds(ws + [w]) == ActiveIds(ws);
    }
  }

  lemma {:induction false} ActiveIdsCount(ws: seq<TrustEntry>, n: nat)
    requires DistinctIds(ws) && n <= |ws|
    ensures |ActiveIds(ws[..n])| == |ActiveWitnesses(ws[..n])|
  {
    if n == 0 {
      assert ActiveIds(ws[..0]) == {} && ActiveWitnesses(ws[..0]) == {};
    } else {
      forall x | x in ws[..n - 1] ensures x.witnessId != ws[n - 1].witnessId {
        var i :| 0 <= i < n - 1 && ws[i] == x;
      }
      hide ActiveIds, ActiveWitnesses;
      ActiveIdsCount(ws, n - 1);
      ActiveWitnessesStep(ws, n - 1);
      ActiveIdsSnoc(ws[..n - 1], ws[n - 1]);
      assert ws[..n] == ws[..n - 1] + [ws[n - 1]];
    }
  }

  /** A store is valid exactly when no two entries share an id or a key and enough ids are active. */
  lemma {:induction false} ValidStoreMeans(store: TrustStore)
    ensures ValidStore(store) <==>
            && (forall i, j | 0 <= i < |store.witnesses| && 0 <= j < |store.witnesses| && i != j ::
                  && store.witnesses[i].witnessId != store.witnesses[j].witnessId
                  && store.witnesses[i].publicKey != store.witnesses[j].publicKey)
            && |ActiveIds(store.witnesses)| >= store.minimumQuorum
  {
    var ws := store.witnesses;
    assert ws[..|ws|] == ws;
    if DistinctIds(ws) { ActiveIdsCount(ws, |ws|); }
  }

  function GetWitness(ws: seq<TrustEntry>, id: string): (r: Option<TrustEntry>)
    ensures r.Some? ==> r.value in ws && r.value.witnessId == id
    ensures r.None? ==> forall i | 0 <= i < |ws| :: ws[i].witnessId != id
  {
    if ws == [] then None else if ws[0].witnessId == id then Some(ws[0]) else GetWitness(ws[1..], id)
  }

  /** ensure_witness_trusted_for_verification */
  predicate Trusted(w: TrustEntry, observedAt: int, verificationTime: int, policy: RevokedPolicy, clockSkew: int) {
    && clockSkew >= 0
    && observedAt <= verificationTime + clockSkew
    && observedAt >= w.validFrom
    && (w.validUntil.Some? ==> observedAt < w.validUntil.value)
    && (w.status.Revoked? ==> policy.AllowPreRevocation? && w.revokedAt.Some? && observedAt < w.revokedAt.value)
  }

  // ---------------------------------------------------------------- one statement

  datatype Verification = Verification(
    checkpoint: Checkpoint, store: TrustStore, time: int, policy: RevokedPolicy, clockSkew: int)

  datatype StatementResult = StatementResult(
    witnessId: string, logId: string, checkpointSha256: Digest, treeSize: nat, rootHash: Digest,
    observedAt: int, logSigningKeyId: string)

  predicate MatchesCheckpoint(st: Statement, v: Verification) {
    && st.logId == v.checkpoint.logId && st.checkpointSha256 == v.checkpoint.checkpointSha256
    && st.treeSize == v.checkpoint.treeSize && st.rootHash == v.checkpoint.rootHash
    && st.logSigningKeyId == v.checkpoint.logSigningKeyId
    && v.store.logId == v.checkpoint.logId
  }

  function ResultOf(st: Statement): StatementResult {
    StatementResult(st.witnessId, st.logId, st.checkpointSha256, st.treeSize, st.rootHash, st.observedAt,
                    st.logSigningKeyId)
  }

  /** verify_transparency_witness_statement */
  function VerifyStatement(e: Envelope, v: Verification): Result<StatementResult, QuorumError> {
    if !MatchesCheckpoint(e.statement, v) then Err(StatementRejected)
    else
      match GetWitness(v.store.witnesses, e.statement.witnessId)
      case None => Err(StoreInvalid)
      case Some(w) =>
        if !Trusted(w, e.statement.observedAt, v.time, v.policy, v.clockSkew) then Err(NotTrusted)
        else if !SignatureVerifies(w.publicKey, e) then Err(StatementRejected)
        else Ok(ResultOf(e.statement))
  }

  predicate Valid(e: Envelope, v: Verification) {
    VerifyStatement(e, v).Ok?
  }

  /**
   What a valid statement is, field by field: the witness's own signature on it, for this very
   checkpoint, at a time when the store lets that witness sign.
   */
  predicate Attested(e: Envelope, v: Verification, w: TrustEntry) {
    var st, cp := e.statement, v.checkpoint;
    && st.witnessId == w.witnessId && e.signature == Signature(w.publicKey, st)
    && st.logId == cp.logId == v.store.logId && st.logSigningKeyId == cp.logSigningKeyId
    && st.checkpointSha256 == cp.checkpointSha256 && st.treeSize == cp.treeSize && st.rootHash == cp.rootHash
    && v.clockSkew >= 0
    && w.validFrom <= st.observedAt <= v.time + v.clockSkew
    && (w.validUntil == None || st.observedAt < w.validUntil.value)
    && match w.status
       case Active => true
       case VerifyOnly => true
       case Revoked => v.policy == AllowPreRevocation && w.revokedAt.Some? && st.observedAt < w.revokedAt.value
  }

  /** Verification accepts exactly the statements that a store entry attests, and returns their fields. */
  lemma {:induction false} StatementVerifiesIffAttested(e: Envelope, v: Verification)
    requires ValidStore(v.store)
    ensures VerifyStatement(e, v).Ok? <==> exists w | w in v.store.witnesses :: Attested(e, v, w)
    ensures VerifyStatement(e, v).Ok? ==>
              VerifyStatement(e, v).value
              == StatementResult(e.statement.witnessId, v.checkpoint.logId, v.checkpoint.checkpointSha256,
                                 v.checkpoint.treeSize, v.checkpoint.rootHash, e.statement.observedAt,
                                 v.checkpoint.logSigningKeyId)
  {
    var ws := v.store.witnesses;
    var found := GetWitness(ws, e.statement.witnessId);
    forall w | w in ws && w.witnessId == e.statement.witnessId ensures found == Some(w) {
      var p :| 0 <= p < |ws| && ws[p] == w;
      var q :| 0 <= q < |ws| && ws[q] == found.value;
    }
    assert VerifyStatement(e, v).Ok? ==> found.value in ws && Attested(e, v, found.value);
  }

  // ---------------------------------------------------------------- the quorum

  datatype QuorumResult = QuorumResult(
    logId: string, treeSize: nat, rootHash: Digest, checkpointSha256: Digest, requiredQuorum: int,
    validWitnessIds: set<string>)

  predicate SeenBefore(es: seq<Envelope>, n: nat)
    requires n < |es|
  {
    exists k | 0 <= k < n :: es[k].statement.witnessId == es[n].statement.witnessId
  }

  /** A later statement of a witness that was counted is only compared, not verified. */
  predicate RepeatsCheckpoint(st: Statement, cp: Checkpoint) {
    && st.logId == cp.logId && st.treeSize == cp.treeSize && st.rootHash == cp.rootHash
    && st.checkpointSha256 == cp.checkpointSha256
  }

  predicate StatementPasses(es: seq<Envelope>, v: Verification, n: nat)
    requires n < |es|
  {
    if SeenBefore(es, n) then RepeatsCheckpoint(es[n].statement, v.checkpoint) else Valid(es[n], v)
  }

  function WitnessIds(es: seq<Envelope>): set<string> {
    set i | 0 <= i < |es| :: es[i].statement.witnessId
  }

  function RequiredQuorum(v: Verification, required: Option<int>): int {
    match required case None => v.store.minimumQuorum case Some(n) => n
  }

  /** When verify_transparency_witness_quorum returns a result instead of raising. */
  predicate QuorumAccepted(es: seq<Envelope>, v: Verification, required: Option<int>) {
    && v.store.logId == v.checkpoint.logId
    && RequiredQuorum(v, required) >= v.store.minimumQuorum
    && (forall n | 0 <= n < |es| :: StatementPasses(es, v, n))
    && |WitnessIds(es)| >= RequiredQuorum(v, required)
  }

  /** The dictionary holds the result of one valid statement for each witness among the first n. */
  ghost predicate Holds(validByWitness: map<string, StatementResult>, es: seq<Envelope>, v: Verification, n: nat)
    requires n <= |es|
  {
    && validByWitness.Keys == WitnessIds(es[..n])
    && forall id | id in validByWitness ::
         exists k :: 0 <= k < n && es[k].statement.witnessId == id && Valid(es[k], v)
                     && validByWitness[id] == ResultOf(es[k].statement)
  }

  lemma HoldsNothing(es: seq<Envelope>, v: Verification)
    ensures Holds(map[], es, v, 0)
  {
  }

  lemma {:induction false} HoldsRepeat(m: map<string, StatementResult>, es: seq<Envelope>, v: Verification, n: nat)
    returns (k: nat)
    requires n < |es| && Holds(m, es, v, n) && es[n].statement.witnessId in m
    ensures Holds(m, es, v, n + 1) && SeenBefore(es, n)
    ensures k < n && es[k].statement.witnessId == es[n].statement.witnessId && Valid(es[k], v)
    ensures m[es[n].statement.witnessId] == ResultOf(es[k].statement)
            && RepeatsCheckpoint(es[k].statement, v.checkpoint)
  {
    hide Valid;
    assert es[..n + 1] == es[..n] + [es[n]];
    SeenIsKnown(es, n);
    WitnessIdsSnoc(es[..n], es[n]);
    k :| 0 <= k < n && es[k].statement.witnessId == es[n].statement.witnessId && Valid(es[k], v)
         && m[es[n].statement.witnessId] == ResultOf(es[k].statement);
    ValidMatches(es[k], v);
  }

  lemma {:induction false} HoldsNext(m: map<string, StatementResult>, es: seq<Envelope>, v: Verification, n: nat)
    requires n < |es| && Holds(m, es, v, n) && es[n].statement.witnessId !in m
    ensures !SeenBefore(es, n)
    ensures Valid(es[n], v) ==> Holds(m[es[n].statement.witnessId := ResultOf(es[n].statement)], es, v, n + 1)
  {
    hide Valid;
    assert es[..n + 1] == es[..n] + [es[n]];
    SeenIsKnown(es, n);
    WitnessIdsSnoc(es[..n], es[n]);
  }

  /** The first statement that does not pass is a repeat that is not for the checkpoint. */
  predicate ReportsAt(es: seq<Envelope>, v: Verification, n: nat)
    requires n < |es|
  {
    && (forall i | 0 <= i < n :: StatementPasses(es, v, i))
    && SeenBefore(es, n) && !RepeatsCheckpoint(es[n].statement, v.checkpoint)
  }

  lemma ReportsHere(es: seq<Envelope>, v: Verification, n: nat)
    requires n < |es| && forall i | 0 <= i < n :: StatementPasses(es, v, i)
    requires SeenBefore(es, n) && !RepeatsCheckpoint(es[n].statement, v.checkpoint)
    ensures ReportsAt(es, v, n) && !StatementPasses(es, v, n)
  {
  }

  lemma NoReport(es: seq<Envelope>, v: Verification, n: nat)
    requires n <= |es| && forall i | 0 <= i < n :: StatementPasses(es, v, i)
    requires n < |es| ==> !SeenBefore(es, n) && !Valid(es[n], v)
    ensures forall m | 0 <= m < |es| :: !ReportsAt(es, v, m)
    ensures n < |es| ==> !StatementPasses(es, v, n)
  {
    hide SeenBefore, RepeatsCheckpoint, Valid;
    forall m | 0 <= m < |es| ensures !ReportsAt(es, v, m) {
      assert m < n ==> StatementPasses(es, v, m);
      assert n < |es| ==> !StatementPasses(es, v, n);
    }
  }

  method VerifyQuorum(
      es: seq<Envelope>, v: Verification, required: Option<int>
  ) returns (r: Result<QuorumResult, QuorumError>)
    ensures r.Ok? <==> QuorumAccepted(es, v, required)
    ensures r.Ok? ==>
              var cp := v.checkpoint;
              r.value == QuorumResult(cp.logId, cp.treeSize, cp.rootHash, cp.checkpointSha256,
                                      RequiredQuorum(v, required), WitnessIds(es))
    ensures r == Err(Equivocation) <==>
            && v.store.logId == v.checkpoint.logId && RequiredQuorum(v, required) >= v.store.minimumQuorum
            && exists n | 0 <= n < |es| :: ReportsAt(es, v, n)
    ensures r == Err(Equivocation) ==>
      exists k, n | 0 <= k < n < |es| ::
        && es[k].statement.witnessId == es[n].statement.witnessId
        && Valid(es[k], v) && !RepeatsCheckpoint(es[n].statement, v.checkpoint)
    ensures r == Err(QuorumInvalid) <==>
            v.store.logId != v.checkpoint.logId || RequiredQuorum(v, required) < v.store.minimumQuorum
    ensures r == Err(NotSatisfied) <==>
            && v.store.logId == v.checkpoint.logId && RequiredQuorum(v, required) >= v.store.minimumQuorum
            && (forall n | 0 <= n < |es| :: StatementPasses(es, v, n)) && |WitnessIds(es)| < RequiredQuorum(v, required)
  {
    hide VerifyStatement, SeenBefore, WitnessIds, Holds, ReportsAt;
    if v.store.logId != v.checkpoint.logId { return Err(QuorumInvalid); }
    var minimum := if required.None? then v.store.minimumQuorum else required.value;
    if minimum < v.store.minimumQuorum { return Err(QuorumInvalid); }
    var validByWitness: map<string, StatementResult> := map[];
    HoldsNothing(es, v);
    for n := 0 to |es|
      invariant Holds(validByWitness, es, v, n)
      invariant forall i | 0 <= i < n :: StatementPasses(es, v, i)
    {
      var statement := es[n].statement;
      if statement.witnessId in validByWitness {
        var existing := validByWitness[statement.witnessId];
        ghost var k := HoldsRepeat(validByWitness, es, v, n);
        if || existing.logId != statement.logId || existing.treeSize != statement.treeSize
           || existing.rootHash != statement.rootHash || existing.checkpointSha256 != statement.checkpointSha256 {
          ReportsHere(es, v, n);
          return Err(Equivocation);
        }
      } else {
        HoldsNext(validByWitness, es, v, n);
        var result := VerifyStatement(es[n], v);
        if result.Err? {
          NoReport(es, v, n);
          ErrorKinds(es[n], v);
          return Err(result.error);
        }
        ValidMatches(es[n], v);
        if || result.value.logId != v.checkpoint.logId || result.value.treeSize != v.checkpoint.treeSize
           || result.value.rootHash != v.checkpoint.rootHash
           || result.value.checkpointSha256 != v.checkpoint.checkpointSha256 {
          return Err(QuorumInvalid);
        }
        validByWitness := validByWitness[result.value.witnessId := result.value];
      }
    }
    HoldsAll(validByWitness, es, v);
    NoReport(es, v, |es|);
    if |validByWitness| < minimum { return Err(NotSatisfied); }
    var cp := v.checkpoint;
    return Ok(QuorumResult(cp.logId, cp.treeSize, cp.rootHash, cp.checkpointSha256, minimum, validByWitness.Keys));
  }

  lemma HoldsAll(m: map<string, StatementResult>, es: seq<Envelope>, v: Verification)
    requires Holds(m, es, v, |es|)
    ensures m.Keys == WitnessIds(es) && |m| == |WitnessIds(es)|
  {
    assert es[..|es|] == es;
  }

  lemma SeenIsKnown(es: seq<Envelope>, n: nat)
    requires n < |es|
    ensures SeenBefore(es, n) <==> es[n].statement.witnessId in WitnessIds(es[..n])
  {
  }

  lemma WitnessIdsSnoc(es: seq<Envelope>, e: Envelope)
    ensures WitnessIds(es + [e]) == WitnessIds(es) + {e.statement.witnessId}
  {
    var all := es + [e];
    assert forall i | 0 <= i < |es| :: all[i] == es[i];
    assert all[|es|] == e;
  }

  lemma ValidMatches(e: Envelope, v: Verification)
    requires Valid(e, v)
    ensures VerifyStatement(e, v).value == ResultOf(e.statement) && RepeatsCheckpoint(e.statement, v.checkpoint)
  {
  }

  lemma ErrorKinds(e: Envelope, v: Verification)
    ensures VerifyStatement(e, v).Err? ==> VerifyStatement(e, v).error in {StatementRejected, StoreInvalid, NotTrusted}
  {
  }

  // ---------------------------------------------------------------- what a quorum means

  /** Every counted witness is in the trust store and has one fully verified statement among those given. */
  lemma {:induction false} CountedWitnessSigned(es: seq<Envelope>, v: Verification, required: Option<int>, id: string)
    requires QuorumAccepted(es, v, required) && id in WitnessIds(es)
    ensures exists i :: 0 <= i < |es| && es[i].statement.witnessId == id && Valid(es[i], v)
  {
    var i :| 0 <= i < |es| && es[i].statement.witnessId == id;
    FirstOccurrenceValid(es, v, i);
  }

  lemma {:induction false} FirstOccurrenceValid(es: seq<Envelope>, v: Verification, i: nat)
    requires i < |es| && forall n | 0 <= n <= i :: StatementPasses(es, v, n)
    ensures exists k :: 0 <= k <= i && es[k].statement.witnessId == es[i].statement.witnessId && Valid(es[k], v)
    decreases i
  {
    hide Valid;
    assert StatementPasses(es, v, i);
    if SeenBefore(es, i) {
      var k :| 0 <= k < i && es[k].statement.witnessId == es[i].statement.witnessId;
      FirstOccurrenceValid(es, v, k);
    }
  }

  function StoreIds(ws: seq<TrustEntry>): set<string> {
    set i | 0 <= i < |ws| :: ws[i].witnessId
  }

  lemma {:induction false} CountedWitnessesAreTrusted(es: seq<Envelope>, v: Verification, required: Option<int>)
    requires QuorumAccepted(es, v, required)
    ensures WitnessIds(es) <= StoreIds(v.store.witnesses)
  {
    hide QuorumAccepted;
    forall id | id in WitnessIds(es) ensures id in StoreIds(v.store.witnesses) {
      CountedWitnessSigned(es, v, required, id);
      var i :| 0 <= i < |es| && es[i].statement.witnessId == id && Valid(es[i], v);
      var w := GetWitness(v.store.witnesses, id).value;
      assert w in v.store.witnesses;
    }
  }

  /**
   What a quorum vouches for: every counted witness has a store entry and, among the statements
   given, one that this entry attests.
   */
  lemma {:induction false} CountedWitnessAttests(es: seq<Envelope>, v: Verification, required: Option<int>, id: string)
    returns (w: TrustEntry, i: nat)
    requires ValidStore(v.store) && QuorumAccepted(es, v, required) && id in WitnessIds(es)
    ensures w in v.store.witnesses && w.witnessId == id && i < |es| && Attested(es[i], v, w)
  {
    hide VerifyStatement, QuorumAccepted, Attested;
    CountedWitnessSigned(es, v, required, id);
    i :| 0 <= i < |es| && es[i].statement.witnessId == id && Valid(es[i], v);
    StatementVerifiesIffAttested(es[i], v);
    w :| w in v.store.witnesses && Attested(es[i], v, w);
    AttestedIsOwn(es[i], v, w);
  }

  lemma AttestedIsOwn(e: Envelope, v: Verification, w: TrustEntry)
    requires Attested(e, v, w)
    ensures e.statement.witnessId == w.witnessId
  {
  }

  /**
   How many witnesses that is: never fewer than the store's minimum, nor than the caller asked
   for, who cannot ask for fewer; and no two of them have one key.
   */
  lemma {:induction false} QuorumIsEnough(es: seq<Envelope>, v: Verification, required: Option<int>)
    requires ValidStore(v.store) && QuorumAccepted(es, v, required)
    ensures |WitnessIds(es)| >= v.store.minimumQuorum
    ensures required.Some? ==> |WitnessIds(es)| >= required.value >= v.store.minimumQuorum
    ensures forall a, b | a in v.store.witnesses && b in v.store.witnesses && a.witnessId != b.witnessId ::
              a.publicKey != b.publicKey
  {
    hide StatementPasses;
    var ws := v.store.witnesses;
    forall a, b | a in ws && b in ws && a.witnessId != b.witnessId ensures a.publicKey != b.publicKey {
      var p :| 0 <= p < |ws| && ws[p] == a;
      var q :| 0 <= q < |ws| && ws[q] == b;
    }
  }

  predicate DistinctWitnesses(es: seq<Envelope>) {
    forall i, j | 0 <= i < j < |es| :: es[i].statement.witnessId != es[j].statement.witnessId
  }

  /** Statement i repeats an earlier one of its witness, or a store entry attests it. */
  predicate RepeatedOrAttested(es: seq<Envelope>, v: Verification, i: nat)
    requires i < |es|
  {
    || (exists k | 0 <= k < i :: es[k].statement.witnessId == es[i].statement.witnessId)
    || (exists w | w in v.store.witnesses :: Attested(es[i], v, w))
  }

  /** It is for the checkpoint's log, size, root and digest. */
  predicate IsForCheckpoint(st: Statement, cp: Checkpoint) {
    && st.logId == cp.logId && st.treeSize == cp.treeSize && st.rootHash == cp.rootHash
    && st.checkpointSha256 == cp.checkpointSha256
  }

  lemma {:induction false} PassesIff(es: seq<Envelope>, v: Verification, i: nat)
    requires ValidStore(v.store) && i < |es|
    ensures StatementPasses(es, v, i) <==>
            IsForCheckpoint(es[i].statement, v.checkpoint) && RepeatedOrAttested(es, v, i)
  {
    hide ValidStore, VerifyStatement, Attested;
    StatementVerifiesIffAttested(es[i], v);
    if Valid(es[i], v) { ValidMatches(es[i], v); }
  }

  /**
   A quorum is accepted exactly when the store is for the log, nobody asks for less than its
   minimum, every statement, repeated or not, is for this log, size, root and checkpoint, every
   first statement of a witness is attested, and enough witnesses are counted.
   */
  lemma {:induction false} AcceptedIffFirstsAreAttested(es: seq<Envelope>, v: Verification, required: Option<int>)
    requires ValidStore(v.store)
    ensures var needed := if required == None then v.store.minimumQuorum else required.value;
            QuorumAccepted(es, v, required) <==>
            && v.store.logId == v.checkpoint.logId && v.store.minimumQuorum <= needed <= |WitnessIds(es)|
            && (forall i | 0 <= i < |es| ::
                  IsForCheckpoint(es[i].statement, v.checkpoint) && RepeatedOrAttested(es, v, i))
  {
    hide ValidStore, StatementPasses, IsForCheckpoint, RepeatedOrAttested;
    forall i | 0 <= i < |es|
      ensures StatementPasses(es, v, i) <==>
              IsForCheckpoint(es[i].statement, v.checkpoint) && RepeatedOrAttested(es, v, i)
    {
      PassesIff(es, v, i);
    }
  }

  /** Statements the store attests, one at least from every active witness, always make the store's own quorum. */
  lemma {:induction false} ActiveWitnessesSuffice(es: seq<Envelope>, v: Verification)
    requires ValidStore(v.store) && v.store.logId == v.checkpoint.logId
    requires forall i | 0 <= i < |es| :: exists w | w in v.store.witnesses :: Attested(es[i], v, w)
    requires forall w | w in v.store.witnesses && w.status == Active ::
               exists i | 0 <= i < |es| :: es[i].statement.witnessId == w.witnessId
    ensures QuorumAccepted(es, v, None)
  {
    hide ValidStore, VerifyStatement, Attested;
    forall i | 0 <= i < |es| ensures StatementPasses(es, v, i) {
      StatementVerifiesIffAttested(es[i], v);
      ValidMatches(es[i], v);
    }
    ValidStoreMeans(v.store);
    SubsetIsSmaller(ActiveIds(v.store.witnesses), WitnessIds(es));
  }

  lemma {:induction false} SubsetIsSmaller<T>(small: set<T>, large: set<T>)
    requires small <= large
    ensures |small| <= |large|
    decreases small
  {
    if x :| x in small { SubsetIsSmaller(small - {x}, large - {x}); }
  }

  lemma {:induction false} PermutedWitnessIds(es: seq<Envelope>, fs: seq<Envelope>)
    requires multiset(es) == multiset(fs)
    ensures WitnessIds(es) == WitnessIds(fs)
    ensures forall e :: e in es <==> e in fs
  {
    assert forall e :: e in es <==> e in multiset(es);
    assert forall e :: e in fs <==> e in multiset(fs);
    assert forall id :: id in WitnessIds(es) <==> exists e :: e in es && e.statement.witnessId == id;
    assert forall id :: id in WitnessIds(fs) <==> exists e :: e in fs && e.statement.witnessId == id;
  }

  /** The part of acceptance that no order can change. */
  predicate QuorumReachable(es: seq<Envelope>, v: Verification, required: Option<int>) {
    && v.store.logId == v.checkpoint.logId
    && RequiredQuorum(v, required) >= v.store.minimumQuorum
    && |WitnessIds(es)| >= RequiredQuorum(v, required)
  }

  // Put any statement first, and it is verified rather than compared.
  lemma {:induction false} EveryOrderVerifiesAll(es: seq<Envelope>, v: Verification, required: Option<int>, i: nat)
    requires forall fs | multiset(fs) == multiset(es) :: QuorumAccepted(fs, v, required)
    requires i < |es|
    ensures Valid(es[i], v)
  {
    hide Valid, RepeatsCheckpoint, WitnessIds;
    var fs := [es[i]] + (es[..i] + es[i + 1..]);
    assert es == es[..i] + [es[i]] + es[i + 1..];
    assert multiset(fs) == multiset(es);
    assert QuorumAccepted(fs, v, required);
    assert StatementPasses(fs, v, 0) && !SeenBefore(fs, 0);
  }

  lemma {:induction false} AllValidPassAnyOrder(es: seq<Envelope>, fs: seq<Envelope>, v: Verification, n: nat)
    requires multiset(fs) == multiset(es) && n < |fs|
    requires forall i | 0 <= i < |es| :: Valid(es[i], v)
    ensures StatementPasses(fs, v, n)
  {
    hide Valid;
    PermutedWitnessIds(es, fs);
    assert fs[n] in fs;
    var i :| 0 <= i < |es| && es[i] == fs[n];
    ValidMatches(fs[n], v);
  }

  /**
   A collection of statements is accepted in every order if and only if every one of them is
   valid by itself (and enough witnesses are among them).
   */
  lemma {:induction false} AcceptedInEveryOrder(es: seq<Envelope>, v: Verification, required: Option<int>)
    ensures (forall fs | multiset(fs) == multiset(es) :: QuorumAccepted(fs, v, required))
            <==> QuorumReachable(es, v, required) && forall i | 0 <= i < |es| :: Valid(es[i], v)
  {
    hide Valid, StatementPasses, WitnessIds;
    if forall fs | multiset(fs) == multiset(es) :: QuorumAccepted(fs, v, required) {
      assert QuorumAccepted(es, v, required);
      forall i | 0 <= i < |es| ensures Valid(es[i], v) { EveryOrderVerifiesAll(es, v, required, i); }
    }
    if QuorumReachable(es, v, required) && forall i | 0 <= i < |es| :: Valid(es[i], v) {
      forall fs | multiset(fs) == multiset(es) ensures QuorumAccepted(fs, v, required) {
        PermutedWitnessIds(es, fs);
        forall n | 0 <= n < |fs| ensures StatementPasses(fs, v, n) { AllValidPassAnyOrder(es, fs, v, n); }
      }
    }
  }

  /** Some order of the statements is accepted. */
  ghost predicate AcceptedInSomeOrder(es: seq<Envelope>, v: Verification, required: Option<int>) {
    exists fs | multiset(fs) == multiset(es) :: QuorumAccepted(fs, v, required)
  }

  ghost predicate RejectedInSomeOrder(es: seq<Envelope>, v: Verification, required: Option<int>) {
    exists fs | multiset(fs) == multiset(es) :: !QuorumAccepted(fs, v, required)
  }

  /** One of the statements is of this witness and valid by itself. */
  predicate HasValid(es: seq<Envelope>, v: Verification, id: string) {
    exists k | 0 <= k < |es| :: es[k].statement.witnessId == id && Valid(es[k], v)
  }

  predicate EveryWitnessValid(es: seq<Envelope>, v: Verification) {
    forall i | 0 <= i < |es| :: HasValid(es, v, es[i].statement.witnessId)
  }

  predicate AllRepeat(es: seq<Envelope>, v: Verification) {
    forall i | 0 <= i < |es| :: RepeatsCheckpoint(es[i].statement, v.checkpoint)
  }

  /** The statements that are valid by themselves, or those that are not. */
  function Selected(es: seq<Envelope>, v: Verification, valid: bool): (fs: seq<Envelope>)
    ensures forall e :: e in fs <==> e in es && Valid(e, v) == valid
  {
    if es == [] then [] else (if Valid(es[0], v) == valid then [es[0]] else []) + Selected(es[1..], v, valid)
  }

  lemma {:induction false} SelectedSplits(es: seq<Envelope>, v: Verification)
    ensures multiset(Selected(es, v, true) + Selected(es, v, false)) == multiset(es)
  {
    hide Valid;
    if es != [] {
      SelectedSplits(es[1..], v);
      assert es == [es[0]] + es[1..];
    }
  }

  lemma HasValidAmong(es: seq<Envelope>, fs: seq<Envelope>, v: Verification, id: string)
    requires HasValid(es, v, id) && forall e | e in es && Valid(e, v) :: e in fs
    ensures HasValid(fs, v, id)
  {
    hide Valid;
    var k :| 0 <= k < |es| && es[k].statement.witnessId == id && Valid(es[k], v);
    assert es[k] in es;
    var m :| 0 <= m < |fs| && fs[m] == es[k];
  }

  lemma RepeatPasses(good: seq<Envelope>, bad: seq<Envelope>, v: Verification, n: nat)
    requires |good| <= n < |good| + |bad|
    requires RepeatsCheckpoint((good + bad)[n].statement, v.checkpoint)
    requires HasValid(good, v, (good + bad)[n].statement.witnessId)
    ensures StatementPasses(good + bad, v, n)
  {
    hide Valid, RepeatsCheckpoint;
    var m :| 0 <= m < |good| && good[m].statement.witnessId == (good + bad)[n].statement.witnessId && Valid(good[m], v);
    assert (good + bad)[m] == good[m];
    assert SeenBefore(good + bad, n);
  }

  // Valid statements first: every other one is then a repeat, and only compared.
  lemma {:induction false} ValidFirstIsAccepted(es: seq<Envelope>, v: Verification, required: Option<int>)
    requires QuorumReachable(es, v, required) && AllRepeat(es, v) && EveryWitnessValid(es, v)
    ensures QuorumAccepted(Selected(es, v, true) + Selected(es, v, false), v, required)
  {
    hide Valid, RepeatsCheckpoint, WitnessIds, HasValid, StatementPasses, Selected;
    var good, bad := Selected(es, v, true), Selected(es, v, false);
    var fs := good + bad;
    SelectedSplits(es, v);
    PermutedWitnessIds(es, fs);
    forall n | 0 <= n < |fs| ensures StatementPasses(fs, v, n) {
      assert fs[n] in fs;
      var i :| 0 <= i < |es| && es[i] == fs[n];
      if n < |good| {
        assert fs[n] in good;
        ValidPasses(fs, v, n);
      } else {
        HasValidAmong(es, good, v, es[i].statement.witnessId);
        RepeatPasses(good, bad, v, n);
      }
    }
  }

  lemma ValidPasses(fs: seq<Envelope>, v: Verification, n: nat)
    requires n < |fs| && Valid(fs[n], v)
    ensures StatementPasses(fs, v, n)
  {
    hide Valid, RepeatsCheckpoint;
    ValidMatches(fs[n], v);
  }

  lemma PassesRepeats(fs: seq<Envelope>, v: Verification, n: nat)
    requires n < |fs| && StatementPasses(fs, v, n)
    ensures RepeatsCheckpoint(fs[n].statement, v.checkpoint)
  {
    hide Valid, RepeatsCheckpoint;
    if Valid(fs[n], v) { ValidMatches(fs[n], v); }
  }

  lemma {:induction false} AcceptedIsReachable(
      es: seq<Envelope>, fs: seq<Envelope>, v: Verification, required: Option<int>)
    requires multiset(fs) == multiset(es) && QuorumAccepted(fs, v, required)
    ensures QuorumReachable(es, v, required) && AllRepeat(es, v) && EveryWitnessValid(es, v)
  {
    hide Valid, RepeatsCheckpoint, WitnessIds, StatementPasses, HasValid;
    PermutedWitnessIds(es, fs);
    forall i | 0 <= i < |es|
      ensures RepeatsCheckpoint(es[i].statement, v.checkpoint) && HasValid(es, v, es[i].statement.witnessId)
    {
      assert es[i] in es;
      var n :| 0 <= n < |fs| && fs[n] == es[i];
      PassesRepeats(fs, v, n);
      FirstIsValid(fs, v, n);
      HasValidAmong(fs, es, v, es[i].statement.witnessId);
    }
  }

  lemma FirstIsValid(fs: seq<Envelope>, v: Verification, n: nat)
    requires n < |fs| && forall i | 0 <= i < |fs| :: StatementPasses(fs, v, i)
    ensures HasValid(fs, v, fs[n].statement.witnessId)
  {
    hide Valid, StatementPasses;
    FirstOccurrenceValid(fs, v, n);
  }

  /**
   Some order is accepted if and only if every statement is for the checkpoint and every witness
   among them has a valid one (and enough witnesses are among them).
   */
  lemma {:induction false} AcceptableInSomeOrder(es: seq<Envelope>, v: Verification, required: Option<int>)
    ensures AcceptedInSomeOrder(es, v, required) <==>
            QuorumReachable(es, v, required) && AllRepeat(es, v) && EveryWitnessValid(es, v)
  {
    hide QuorumAccepted, QuorumReachable, AllRepeat, EveryWitnessValid;
    if AcceptedInSomeOrder(es, v, required) {
      var fs :| multiset(fs) == multiset(es) && QuorumAccepted(fs, v, required);
      AcceptedIsReachable(es, fs, v, required);
    }
    if QuorumReachable(es, v, required) && AllRepeat(es, v) && EveryWitnessValid(es, v) {
      SelectedSplits(es, v);
      ValidFirstIsAccepted(es, v, required);
    }
  }

  /**
   The order decides, some order being accepted and another rejected, if and only if some order
   is acceptable and yet one of the statements is not valid by itself.
   */
  lemma {:induction false} OrderDecides(es: seq<Envelope>, v: Verification, required: Option<int>)
    ensures AcceptedInSomeOrder(es, v, required) && RejectedInSomeOrder(es, v, required) <==>
            && QuorumReachable(es, v, required) && AllRepeat(es, v) && EveryWitnessValid(es, v)
            && exists i | 0 <= i < |es| :: !Valid(es[i], v)
  {
    hide QuorumAccepted, QuorumReachable, AllRepeat, EveryWitnessValid, Valid;
    AcceptableInSomeOrder(es, v, required);
    AcceptedInEveryOrder(es, v, required);
    assert RejectedInSomeOrder(es, v, required) <==> !forall fs | multiset(fs) == multiset(es) ::
            QuorumAccepted(fs, v, required);
  }

  /** With one statement per witness the order does not matter. */
  lemma {:induction false} OrderIrrelevantForDistinctWitnesses(
    es: seq<Envelope>, fs: seq<Envelope>, v: Verification, required: Option<int>)
    requires DistinctWitnesses(es) && multiset(fs) == multiset(es)
    ensures QuorumAccepted(fs, v, required) <==> QuorumAccepted(es, v, required)
    ensures WitnessIds(fs) == WitnessIds(es)
  {
    PermutedWitnessIds(es, fs);
    DistinctIsPermutable(es, fs);
    DistinctAllVerified(es, v);
    DistinctAllVerified(fs, v);
  }

  lemma {:induction false} DistinctAllVerified(es: seq<Envelope>, v: Verification)
    requires DistinctWitnesses(es)
    ensures (forall n | 0 <= n < |es| :: StatementPasses(es, v, n)) <==> (forall e | e in es :: Valid(e, v))
  {
    hide Valid;
    assert forall n | 0 <= n < |es| :: StatementPasses(es, v, n) <==> Valid(es[n], v);
    if forall n | 0 <= n < |es| :: StatementPasses(es, v, n) {
      forall e | e in es ensures Valid(e, v) {
        var n :| 0 <= n < |es| && es[n] == e;
        assert StatementPasses(es, v, n);
      }
    }
  }

  lemma {:induction false} DistinctIsPermutable(es: seq<Envelope>, fs: seq<Envelope>)
    requires DistinctWitnesses(es) && multiset(fs) == multiset(es)
    ensures DistinctWitnesses(fs)
  {
    forall i, j | 0 <= i < j < |fs| ensures fs[i].statement.witnessId != fs[j].statement.witnessId {
      var rest := fs[..i] + fs[i + 1..];
      assert fs == fs[..i] + [fs[i]] + fs[i + 1..];
      assert multiset(fs) == multiset(rest) + multiset{fs[i]};
      assert rest[j - 1] == fs[j];
      assert fs[j] in multiset(rest);
      if fs[i] == fs[j] {
        assert multiset(es)[fs[i]] >= 2;
        TwiceMeansTwoPlaces(es, fs[i]);
      } else {
        assert fs[i] in multiset(es) && fs[j] in multiset(es);
        var p :| 0 <= p < |es| && es[p] == fs[i];
        var q :| 0 <= q < |es| && es[q] == fs[j];
      }
    }
  }

  lemma {:induction false} TwiceMeansTwoPlaces(es: seq<Envelope>, e: Envelope)
    requires multiset(es)[e] >= 2
    ensures exists p, q :: 0 <= p < q < |es| && es[p] == e == es[q]
  {
    var p :| 0 <= p < |es| && es[p] == e;
    var rest := es[..p] + es[p + 1..];
    assert es == es[..p] + [es[p]] + es[p + 1..];
    assert multiset(es) == multiset(rest) + multiset{e};
    assert e in multiset(rest);
    var k :| 0 <= k < |rest| && rest[k] == e;
    var q := if k < p then k else k + 1;
    assert es[q] == e;
    if q < p {
      assert 0 <= q < p < |es| && es[q] == e == es[p];
    }
  }

  /**
   With two statements of one witness the order can matter: a valid one followed by one whose
   signature does not verify is accepted, the other way round it is rejected.
   */
  lemma {:induction false} OrderMattersForRepeatedWitness(
      w: TrustEntry, st: Statement, v: Verification, forged: Signature)
    requires v.store == TrustStore(v.checkpoint.logId, 1, [w]) && w.status.Active? && v.clockSkew >= 0
    requires w.validFrom <= st.observedAt <= v.time && (w.validUntil.Some? ==> st.observedAt < w.validUntil.value)
    requires st.witnessId == w.witnessId && MatchesCheckpoint(st, v)
    requires forged != Signature(w.publicKey, st)
    ensures var good, bad := Sign(st, Identity(w.witnessId, w.publicKey), v.time), Envelope(st, forged, v.time);
            && QuorumAccepted([good, bad], v, None)
            && !QuorumAccepted([bad, good], v, None)
  {
    var good, bad := Sign(st, Identity(w.witnessId, w.publicKey), v.time), Envelope(st, forged, v.time);
    assert GetWitness([w], st.witnessId) == Some(w);
    assert Valid(good, v) && !Valid(bad, v);
    hide Valid;
    var es := [good, bad];
    assert es[0].statement.witnessId == es[1].statement.witnessId;
    assert WitnessIds(es) == {w.witnessId};
    assert !StatementPasses([bad, good], v, 0) by {
      assert !SeenBefore([bad, good], 0);
    }
  }
}
