/**
 End to end: two checkpoints that each pass the witness quorum against one trust store cannot
 show two different histories, as long as the two quorums are large enough to share a witness
 that signs only through completed calls on one state file.
 */
module SplitView {
  import opened Wrappers
  import opened Hashing
  import MerkleTree
  import opened TransparencyLog
  import opened TransparencyLogFiles
  import opened Checkpoints
  import opened Witnesses
  import opened WitnessQuorum

  /** Everything one witness did with one state file. */
  datatype History = History(key: Key, start: Option<WitnessState>, calls: seq<Call>)

  function SignedStatements(h: Hasher, id: string, history: History): seq<Signed> {
    RunCalls(h, Identity(id, history.key), history.start, history.calls).signed
  }

  /** The witness's key is the trusted one, and its signatures in `es` were made in this history. */
  ghost predicate SignedOnlyInHistory(h: Hasher, w: TrustEntry, history: History, es: seq<Envelope>) {
    && history.key == w.publicKey
    && forall e | e in es && e.statement.witnessId == w.witnessId && SignatureVerifies(w.publicKey, e) ::
         exists k :: 0 <= k < |SignedStatements(h, w.witnessId, history)|
                     && SignedStatements(h, w.witnessId, history)[k].statement == e.statement
  }

  /** An honest witness for these two collections of statements; what it signed besides is left open. */
  ghost predicate Honest(
      h: Hasher, w: TrustEntry, histories: map<string, History>, es: seq<Envelope>, fs: seq<Envelope>) {
    && w.witnessId in histories
    && SignedOnlyInHistory(h, w, histories[w.witnessId], es)
    && SignedOnlyInHistory(h, w, histories[w.witnessId], fs)
  }

  lemma {:induction false} QuorumsShareAnHonestMember(
      a: set<string>, b: set<string>, all: set<string>, faulty: set<string>)
    returns (x: string)
    requires a <= all && b <= all
    requires |a| + |b| > |all| + |faulty|
    ensures x in a && x in b && x !in faulty
  {
    var union, both := a + b, a * b;
    SubsetCardinality(union, all);
    assert |a| + |b| == |union| + |both|;
    if both <= faulty {
      SubsetCardinality(both, faulty);
    }
    x :| x in both && x !in faulty;
  }

  lemma {:induction false} SubsetCardinality<T>(a: set<T>, b: set<T>)
    requires a <= b
    ensures |a| <= |b|
  {
    assert b == a + (b - a);
  }

  lemma {:induction false} StoreIdsCardinality(ws: seq<TrustEntry>)
    ensures |StoreIds(ws)| <= |ws|
  {
    if ws != [] {
      var last := |ws| - 1;
      StoreIdsCardinality(ws[..last]);
      assert StoreIds(ws) == StoreIds(ws[..last]) + {ws[last].witnessId};
    }
  }

  // The one store entry with a counted id is the entry its statement was verified with.
  lemma {:induction false} CountedStatement(
    h: Hasher, v: Verification, es: seq<Envelope>, required: Option<int>, w: TrustEntry, history: History)
        returns (k: nat)
    requires ValidStore(v.store) && QuorumAccepted(es, v, required)
    requires w in v.store.witnesses && w.witnessId in WitnessIds(es)
    requires SignedOnlyInHistory(h, w, history, es)
    ensures k < |SignedStatements(h, w.witnessId, history)|
    ensures var st := SignedStatements(h, w.witnessId, history)[k].statement;
            st.witnessId == w.witnessId && MatchesCheckpoint(st, v)
  {
    hide QuorumAccepted, SignedStatements;
    CountedWitnessSigned(es, v, required, w.witnessId);
    var i :| 0 <= i < |es| && es[i].statement.witnessId == w.witnessId && Valid(es[i], v);
    var found := GetWitness(v.store.witnesses, w.witnessId).value;
    assert found == w by {
      var p :| 0 <= p < |v.store.witnesses| && v.store.witnesses[p] == w;
      var q :| 0 <= q < |v.store.witnesses| && v.store.witnesses[q] == found;
    }
    assert es[i] in es;
    k :| 0 <= k < |SignedStatements(h, w.witnessId, history)|
         && SignedStatements(h, w.witnessId, history)[k].statement == es[i].statement;
  }

  /** The collision in one witness's history between its i-th and j-th statement, in either order. */
  function HistoryCollision(
    h: Hasher, signed: seq<Signed>, i: nat, j: nat, xs: seq<Digest>, ys: seq<Digest>): Option<Collision>
    requires i < |signed| && j < |signed| && |xs| >= 1 && |ys| >= 1
  {
    if i <= j then ChainedHeadsCollision(h, HeadsOf(signed), i, j, xs, ys)
    else ChainedHeadsCollision(h, HeadsOf(signed), j, i, ys, xs)
  }

  /** One of the two lists is a prefix of the other. */
  predicate PrefixRelated<T(==)>(xs: seq<T>, ys: seq<T>) {
    xs <= ys || ys <= xs
  }

  // What the history of one witness says about two genuine checkpoints it signed.
  lemma {:induction false} OneWitnessSeesOneHistory(
    h: Hasher, id: string, history: History, i: nat, j: nat, xs: seq<Digest>, ys: seq<Digest>)
    requires i < |SignedStatements(h, id, history)| && j < |SignedStatements(h, id, history)|
    requires var st := SignedStatements(h, id, history)[i].statement; Genuine(h, st.treeSize, st.rootHash, xs)
    requires var st := SignedStatements(h, id, history)[j].statement; Genuine(h, st.treeSize, st.rootHash, ys)
    ensures match HistoryCollision(h, SignedStatements(h, id, history), i, j, xs, ys)
            case Some(c) => IsCollision(h, c)
            case None => PrefixRelated(xs, ys)
  {
    hide RunCalls, ChainedHeadsCollision, MerkleTree.MerkleRoot;
    var w := Identity(id, history.key);
    if i <= j {
      WitnessedLogsFormPrefixChain(h, w, history.start, history.calls, i, j, xs, ys);
    } else {
      WitnessedLogsFormPrefixChain(h, w, history.start, history.calls, j, i, ys, xs);
    }
  }

  /**
   One size, one root: a witness never signs two roots or two checkpoints for one tree size,
   genuine or not.
   */
  lemma {:induction false} OneSizeOneRoot(h: Hasher, id: string, history: History, i: nat, j: nat)
    requires i < |SignedStatements(h, id, history)| && j < |SignedStatements(h, id, history)|
    ensures var a, b := SignedStatements(h, id, history)[i].statement, SignedStatements(h, id, history)[j].statement;
            a.treeSize == b.treeSize ==> a.rootHash == b.rootHash && a.checkpointSha256 == b.checkpointSha256
  {
    hide RunCalls;
    var w := Identity(id, history.key);
    if i <= j {
      WitnessNeverConflicts(h, w, history.start, history.calls, i, j);
    } else {
      WitnessNeverConflicts(h, w, history.start, history.calls, j, i);
    }
  }

  /** Two accepted quorums against one store that share more witnesses than are faulty. */
  ghost predicate OverlappingQuorums(
    h: Hasher, v: Verification, es: seq<Envelope>, required: Option<int>, u: Verification, fs: seq<Envelope>,
        required': Option<int>,
    faulty: set<string>, histories: map<string, History>) {
    && ValidStore(v.store) && u.store == v.store
    && QuorumAccepted(es, v, required) && QuorumAccepted(fs, u, required')
    && |WitnessIds(es)| + |WitnessIds(fs)| > |v.store.witnesses| + |faulty|
    && forall w | w in v.store.witnesses && w.witnessId !in faulty :: Honest(h, w, histories, es, fs)
  }

  // The witness both quorums counted, and its statements for the two checkpoints.
  lemma {:induction false} SharedWitness(
    h: Hasher, v: Verification, es: seq<Envelope>, required: Option<int>, u: Verification, fs: seq<Envelope>,
        required': Option<int>,
    faulty: set<string>, histories: map<string, History>) returns (id: string, i: nat, j: nat)
    requires OverlappingQuorums(h, v, es, required, u, fs, required', faulty, histories)
    ensures id in WitnessIds(es) && id in WitnessIds(fs) && id !in faulty && id in histories
    ensures i < |SignedStatements(h, id, histories[id])| && j < |SignedStatements(h, id, histories[id])|
    ensures MatchesCheckpoint(SignedStatements(h, id, histories[id])[i].statement, v)
    ensures MatchesCheckpoint(SignedStatements(h, id, histories[id])[j].statement, u)
  {
    hide QuorumAccepted, SignedStatements, SignedOnlyInHistory;
    var ws := v.store.witnesses;
    CountedWitnessesAreTrusted(es, v, required);
    CountedWitnessesAreTrusted(fs, u, required');
    StoreIdsCardinality(ws);
    id := QuorumsShareAnHonestMember(WitnessIds(es), WitnessIds(fs), StoreIds(ws), faulty);
    var n :| 0 <= n < |ws| && ws[n].witnessId == id;
    assert Honest(h, ws[n], histories, es, fs);
    i := CountedStatement(h, v, es, required, ws[n], histories[id]);
    j := CountedStatement(h, u, fs, required', ws[n], histories[id]);
  }

  /**
   No split view.  Two checkpoints of any sizes, each accepted by its quorum against one store
   of N entries with a + b > N + f counted witnesses, at most f of them faulty: if the roots of
   the two checkpoints are roots of lists, the lists are prefix-related, or the history of a
   shared honest witness yields the computed hash collision; and one tree size never has two
   roots at all.  Nothing is assumed of the other roots the witnesses signed.
   */
  lemma {:induction false} NoSplitView(
    h: Hasher, v: Verification, es: seq<Envelope>, required: Option<int>,
    u: Verification, fs: seq<Envelope>, required': Option<int>,
    faulty: set<string>, histories: map<string, History>, xs: seq<Digest>, ys: seq<Digest>
  ) returns (id: string, i: nat, j: nat)
    requires OverlappingQuorums(h, v, es, required, u, fs, required', faulty, histories)
    requires Genuine(h, v.checkpoint.treeSize, v.checkpoint.rootHash, xs)
    requires Genuine(h, u.checkpoint.treeSize, u.checkpoint.rootHash, ys)
    ensures id in WitnessIds(es) && id in WitnessIds(fs) && id !in faulty && id in histories
    ensures i < |SignedStatements(h, id, histories[id])| && j < |SignedStatements(h, id, histories[id])|
    ensures v.checkpoint.treeSize == u.checkpoint.treeSize ==>
              && v.checkpoint.rootHash == u.checkpoint.rootHash
              && v.checkpoint.checkpointSha256 == u.checkpoint.checkpointSha256
    ensures match HistoryCollision(h, SignedStatements(h, id, histories[id]), i, j, xs, ys)
            case Some(c) => IsCollision(h, c)
            case None => PrefixRelated(xs, ys)
  {
    hide OverlappingQuorums, SignedStatements, HistoryCollision, MerkleTree.MerkleRoot;
    id, i, j := SharedWitness(h, v, es, required, u, fs, required', faulty, histories);
    OneSizeOneRoot(h, id, histories[id], i, j);
    OneWitnessSeesOneHistory(h, id, histories[id], i, j, xs, ys);
  }

  /** How many entries of the list behind the j-th statement the i-th one covers, or a collision. */
  function HistoryCut(h: Hasher, signed: seq<Signed>, i: nat, j: nat, ys: seq<Digest>): (r: Result<nat, Collision>)
    requires i < |signed| && j < |signed| && |ys| >= 1
    ensures r.Ok? ==> 1 <= r.value <= |ys|
  {
    if i <= j then ChainCut(h, HeadsOf(signed), i, j, ys) else Ok(|ys|)
  }

  // One witness: what it signed for a size no larger than a genuine one is the root of a prefix.
  lemma {:induction false} SmallerStatementIsPrefixRoot(
    h: Hasher, id: string, history: History, i: nat, j: nat, ys: seq<Digest>)
    requires i < |SignedStatements(h, id, history)| && j < |SignedStatements(h, id, history)|
    requires var signed := SignedStatements(h, id, history);
             signed[i].statement.treeSize <= signed[j].statement.treeSize
    requires |ys| >= 1
    requires SignedStatements(h, id, history)[j].statement.rootHash == MerkleTree.MerkleRoot(h, ys)
    ensures match HistoryCut(h, SignedStatements(h, id, history), i, j, ys)
            case Err(c) => IsCollision(h, c)
            case Ok(p) => SignedStatements(h, id, history)[i].statement.rootHash == MerkleTree.MerkleRoot(h, ys[..p])
  {
    hide RunCalls, ChainCut, HeadChain, SignedChain, MerkleTree.MerkleRoot;
    var w, signed := Identity(id, history.key), SignedStatements(h, id, history);
    if i <= j {
      RunKeepsChain(h, w, history.start, history.calls);
      SignedChainHeads(h, signed);
      EarlierRootsArePrefixRoots(h, HeadsOf(signed), i, j, ys);
    } else {
      WitnessNeverConflicts(h, w, history.start, history.calls, j, i);
      assert ys[..|ys|] == ys;
    }
  }

  /**
   The same with one genuine root.  If the larger of the two accepted checkpoints is genuine, the
   root of the smaller one is the root of a prefix of its list, or a collision is computed: a
   quorum cannot have vouched for a smaller tree that is no part of the larger.
   */
  lemma {:induction false} SmallerCheckpointIsPrefixRoot(
    h: Hasher, v: Verification, es: seq<Envelope>, required: Option<int>,
    u: Verification, fs: seq<Envelope>, required': Option<int>,
    faulty: set<string>, histories: map<string, History>, ys: seq<Digest>
  ) returns (id: string, i: nat, j: nat)
    requires OverlappingQuorums(h, v, es, required, u, fs, required', faulty, histories)
    requires v.checkpoint.treeSize <= u.checkpoint.treeSize
    requires Genuine(h, u.checkpoint.treeSize, u.checkpoint.rootHash, ys)
    ensures id in WitnessIds(es) && id in WitnessIds(fs) && id !in faulty && id in histories
    ensures i < |SignedStatements(h, id, histories[id])| && j < |SignedStatements(h, id, histories[id])|
    ensures match HistoryCut(h, SignedStatements(h, id, histories[id]), i, j, ys)
            case Err(c) => IsCollision(h, c)
            case Ok(p) => v.checkpoint.rootHash == MerkleTree.MerkleRoot(h, ys[..p])
  {
    hide OverlappingQuorums, SignedStatements, HistoryCut, MerkleTree.MerkleRoot;
    id, i, j := SharedWitness(h, v, es, required, u, fs, required', faulty, histories);
    SmallerStatementIsPrefixRoot(h, id, histories[id], i, j, ys);
  }

  /** The collision between two verified logs, in a shared witness's history or in an entry hash. */
  function SplitLogsCollision(
    h: Hasher, c: Codec, signed: seq<Signed>, i: nat, j: nat, v: LogVerification, es: seq<Entry>, u: LogVerification,
        fs: seq<Entry>
  ): Option<Collision>
    requires i < |signed| && j < |signed| && |v.entryHashes| >= 1 && |u.entryHashes| >= 1
  {
    match HistoryCollision(h, signed, i, j, v.entryHashes, u.entryHashes)
    case Some(k) => Some(k)
    case None => if |es| <= |fs| then ChainCollision(c, es, fs[..|es|]) else ChainCollision(c, fs, es[..|fs|])
  }

  /**
   From quorums to log files.  Two parties who each verified a log, a checkpoint against it and
   a quorum for that checkpoint hold logs one of which extends the other, entry by entry, or a
   collision is computed.
   */
  lemma {:induction false} NoSplitLogs(
    h: Hasher, c: Codec, v: Verification, es: seq<Envelope>, required: Option<int>,
    u: Verification, fs: seq<Envelope>, required': Option<int>,
    faulty: set<string>, histories: map<string, History>,
    logV: LogVerification, entriesV: seq<Entry>, logU: LogVerification, entriesU: seq<Entry>
  ) returns (id: string, i: nat, j: nat)
    requires OverlappingQuorums(h, v, es, required, u, fs, required', faulty, histories)
    requires ValidCodec(c) && Chained(h, c, entriesV) && Chained(h, c, entriesU)
    requires Describes(logV, entriesV) && Describes(logU, entriesU)
    requires MatchesLog(h, v.checkpoint, logV) && MatchesLog(h, u.checkpoint, logU)
    ensures |logV.entryHashes| >= 1 && |logU.entryHashes| >= 1
    ensures id in WitnessIds(es) && id in WitnessIds(fs) && id !in faulty && id in histories
    ensures i < |SignedStatements(h, id, histories[id])| && j < |SignedStatements(h, id, histories[id])|
    ensures match SplitLogsCollision(h, c, SignedStatements(h, id, histories[id]), i, j, logV, entriesV, logU, entriesU)
            case Some(k) => IsCollision(h, k)
            case None => PrefixRelated(entriesV, entriesU)
  {
    hide OverlappingQuorums, SignedStatements, HistoryCollision, MerkleTree.MerkleRoot, Chained, ValidCodec,
        ChainCollision, Indexes, RootTransitions;
    MatchingCheckpointIsGenuine(h, v.checkpoint, logV, entriesV);
    MatchingCheckpointIsGenuine(h, u.checkpoint, logU, entriesU);
    var xs, ys := logV.entryHashes, logU.entryHashes;
    id, i, j := NoSplitView(h, v, es, required, u, fs, required', faulty, histories, xs, ys);
    if PrefixRelated(xs, ys) {
      if |entriesV| <= |entriesU| {
        HashPrefixPinsEntries(h, c, xs, entriesV, ys, entriesU);
      } else {
        HashPrefixPinsEntries(h, c, ys, entriesU, xs, entriesV);
      }
    }
  }

  // ---------------------------------------------------------------- reports of equivocation

  // The store entry of an id is the one its valid statements were verified with.
  lemma ValidIsSignedBy(v: Verification, e: Envelope, w: TrustEntry)
    requires ValidStore(v.store) && w in v.store.witnesses && e.statement.witnessId == w.witnessId && Valid(e, v)
    ensures SignatureVerifies(w.publicKey, e) && MatchesCheckpoint(e.statement, v)
  {
    var found := GetWitness(v.store.witnesses, w.witnessId).value;
    var p :| 0 <= p < |v.store.witnesses| && v.store.witnesses[p] == w;
    var q :| 0 <= q < |v.store.witnesses| && v.store.witnesses[q] == found;
  }

  lemma SameHistoryAgrees(h: Hasher, w: TrustEntry, history: History, es: seq<Envelope>, d: Envelope, e: Envelope)
    requires SignedOnlyInHistory(h, w, history, es) && d in es && e in es
    requires d.statement.witnessId == e.statement.witnessId == w.witnessId
    requires SignatureVerifies(w.publicKey, d) && SignatureVerifies(w.publicKey, e)
    ensures d.statement.logId == e.statement.logId
    ensures d.statement.treeSize == e.statement.treeSize ==>
              d.statement.rootHash == e.statement.rootHash
                  && d.statement.checkpointSha256 == e.statement.checkpointSha256
  {
    hide RunCalls;
    var signed := SignedStatements(h, w.witnessId, history);
    var i :| 0 <= i < |signed| && signed[i].statement == d.statement;
    var j :| 0 <= j < |signed| && signed[j].statement == e.statement;
    var identity := Identity(w.witnessId, history.key);
    if i <= j {
      WitnessNeverConflicts(h, identity, history.start, history.calls, i, j);
    } else {
      WitnessNeverConflicts(h, identity, history.start, history.calls, j, i);
    }
  }

  /**
   Of the second statements that a witness signing in one history did sign, exactly those for
   another tree size are reported as equivocation, though they contradict nothing.
   */
  lemma {:induction false} OwnRepeatIsReported(
    h: Hasher, v: Verification, es: seq<Envelope>, n: nat, w: TrustEntry, history: History)
    requires ValidStore(v.store) && w in v.store.witnesses && SignedOnlyInHistory(h, w, history, es)
    requires n < |es| && es[n].statement.witnessId == w.witnessId && SignatureVerifies(w.publicKey, es[n])
    requires (forall i | 0 <= i < n :: StatementPasses(es, v, i)) && SeenBefore(es, n)
    ensures ReportsAt(es, v, n) <==> es[n].statement.treeSize != v.checkpoint.treeSize
  {
    hide StatementPasses, Valid, SignedOnlyInHistory, SignatureVerifies;
    var m :| 0 <= m < n && es[m].statement.witnessId == es[n].statement.witnessId;
    FirstOccurrenceValid(es, v, m);
    var k :| 0 <= k <= m && es[k].statement.witnessId == w.witnessId && Valid(es[k], v);
    ValidIsSignedBy(v, es[k], w);
    SameHistoryAgrees(h, w, history, es, es[k], es[n]);
  }

  /**
   So a report against such a witness means that the reported statement was not signed by it, or
   is for another tree size; it never means that the witness signed two roots for one size.
   */
  lemma {:induction false} ReportedIsForgedOrOtherSize(
    h: Hasher, v: Verification, es: seq<Envelope>, n: nat, w: TrustEntry, history: History)
    requires ValidStore(v.store) && w in v.store.witnesses && SignedOnlyInHistory(h, w, history, es)
    requires n < |es| && es[n].statement.witnessId == w.witnessId && ReportsAt(es, v, n)
    ensures !SignatureVerifies(w.publicKey, es[n]) || es[n].statement.treeSize != v.checkpoint.treeSize
  {
    hide StatementPasses, SignedOnlyInHistory;
    if SignatureVerifies(w.publicKey, es[n]) { OwnRepeatIsReported(h, v, es, n, w, history); }
  }
}
