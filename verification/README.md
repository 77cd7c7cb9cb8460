# Verification of the transparency subsystem and its neighbours

A Dafny model of the trust machinery of the research assistant: the RFC 6962-style transparency log with its Merkle
tree, the signed checkpoints, stateful witnesses and witness quorums above it, the root and manifest trust states that
depend on the log, and three smaller cores: cache pruning, audit-report aggregation and schema migration.

`dafny verify dfyconfig.toml` checks the whole project.

## How the modules fit together

- `Hashing` is SHA-256 as an arbitrary function over domain-tagged inputs. Nothing is assumed about it: no injectivity,
  no collision resistance. Wherever a statement would need that, it instead returns, from an explicit function, two
  different inputs with one digest.
- `MerkleTree` has roots and inclusion proofs, `MerkleConsistency` the recursive path generator, the bit-shifting
  verifier (an imperative loop) and the theorem that they agree for all sizes, `MerkleSoundness` the converse: what an
  accepted path means, `MerkleCuts` what it means when only the newer root is known to be genuine, and `MerkleRfc` how the
  check differs from the standard's.
- `Identifiers`, `TransparencyLog`, `TransparencyLogFiles`, `LogProtocol` and `LogRegistrations` are the log: the verify
  loop and the registration on bytes of files, and many processes taking locks, appending, replacing the state file and
  dying.
- `Checkpoints`, `CheckpointStates`, `Witnesses`, `WitnessQuorum` and `SplitView` lead from one checkpoint to the
  end-to-end theorem that two quorums cannot have accepted two different histories; `HonestLog` is the liveness side: a
  log that only grows is never refused.
- `RootTransitions`, `SigningKeyManifests`, `TrustStates` and `RootChain` are the root and manifest trust states.
- `CacheInventory`, `CachePruning`, `CacheExecution`, `CacheSafety` and `CacheRemainder` follow the persistent cache from
  inventory to plan to execution among other processes.
- `Aggregation` and `AuditReport`, `SchemaMigration` and `Ordering` (Python's string order and stable sort) are the rest.

Code that updates files or loops over collections is a method, or a class with the files as its fields, proved equal to
a function of the old state; the lemmas are about those functions and about whole runs of them. For every operation that
accepts or refuses something a lemma says in terms of the plain fields when it succeeds, what it then stores, and when
it raises which error (such as `WitnessQuorum.StatementVerifiesIffAttested`, `TrustStates.ManifestAcceptedIffInForce`,
`Witnesses.CreationIsAsAsked`). Signatures are modelled by the key and the message they were made with, canonical JSON
by an encoder assumed injective (`ValidCodec`), times by integers. Clocks, keys, files and other processes are
parameters.

## Where the code does less than one might expect

- The consistency loop never checks `sn`: not before a hash, not at the end, and it does not reject empty paths. It
  therefore accepts exactly what RFC 9162 accepts and, besides, paths of a wrong length
  (`MerkleRfc.RfcIsTheLengthCheck`), such as `[r]` between sizes 3 and 4 with one root r (`MerkleRfc.ShortPathAccepted`)
  or no hashes at all (`MerkleSoundness.EmptyPathAccepted`). When both roots are genuine this costs nothing
  (`MerkleSoundness.ConsistencyDecides`). For other roots it does, so a history may contain heads that no list of their
  size has. They do no harm to the genuine ones: every head before a genuine one has the root of a prefix of its list
  (`Checkpoints.EarlierRootsArePrefixRoots`), and the theorems about histories ask for genuine roots only at the two
  heads they compare.
- A second statement of a witness that was already counted is only compared with the checkpoint, never verified. So the
  order of the statements can decide, and does exactly when some order is acceptable and a statement among them is not
  valid by itself (`WitnessQuorum.OrderDecides`); `WitnessQuorum.OrderMattersForRepeatedWitness` is an instance. And a
  report of equivocation against a witness that never contradicts itself means that the second statement is forged or for
  another tree size (`SplitView.ReportedIsForgedOrOtherSize`).
- A root transition that does not name the manifest state succeeds beside one, and the manifest state then belongs to no
  current root: the coupling survives exactly when there was no manifest state (`TrustStates.UnnamedManifestBreaksCoupling`;
  `TrustStates.UnnamedTransitionLeavesManifestBehind` constructs such a case).
- The inventory of a cache fails on a valid entry whose modification time is before 1970, because its schema refuses
  negative times (`CacheInventory.Status`).
- Between the second `lstat` of a prune candidate and its `unlink` nothing but the cache lock protects the entry. That
  moment alone decides what is deleted (`CacheSafety.RestatCoversTheRest`, `CacheSafety.LastMomentDecides`); any
  replacement but a folder put there is deleted and reported as the planned entry
  (`CacheSafety.ReplacementIsDeletedWithoutLock`).
- A migrated payload is not always a new object: the object the last step returns is passed on uncopied
  (`SchemaMigration.MigrateSchemaPayload`).
- Migrating in two hops equals migrating in one exactly when the payload's version is not strictly above the first target
  and at most the second (`SchemaMigration.MigrationComposes`).

## Model

| member | source | states |
|---|---|---|
| MerkleTree.LargestPowerOfTwoLessThan | app/transparency_merkle.py:384-385 | the split k of n leaves satisfies 1 <= k < n <= 2k |
| MerkleTree.SplitIsUnique | app/transparency_merkle.py:384-385 | the split is the only power of two within those bounds, so `1 << ((n-1).bit_length()-1)` is RFC 6962's k |
| MerkleTree.MerkleRootSplits | app/transparency_merkle.py:278-285 | the root of a list is RFC 6962's MTH: a leaf hash, or the node hash of the roots of its two halves |
| MerkleTree.RootBindsList | app/transparency_merkle.py:142-149 | two lists of any lengths with one root are equal, or the computed pair of inputs collides |
| MerkleTree.RootFromInclusionPathConsumes | app/transparency_merkle.py:306-337 | the recursion consumes exactly as many hashes as the leaf is deep and fails exactly when the path is shorter |
| MerkleTree.CalculatesAlongSiblings | app/transparency_merkle.py:161-182 | an inclusion check computes the root along exactly as many siblings as the leaf is deep, at most 256, and otherwise fails |
| MerkleTree.InclusionRoundTrip | app/transparency_merkle.py:152-182 | the generated audit path of every entry of every list up to 2^256 recomputes the root |
| MerkleTree.InclusionBinds | app/transparency_merkle.py:161-182 | an accepted (entry, index, path) against a genuine root has that entry at that index and exactly the generated path, or a collision is computed |
| MerkleTree.InclusionPathBound | app/transparency_merkle.py:297-303 | audit paths have at most ceil(log2 n) hashes, at most 17 at the log's entry cap |
| MerkleConsistency.VerifyConsistencyPath | app/transparency_merkle.py:199-244 | the shifting loop returns true exactly when its argument checks pass and replaying the path over the walked sides gives both roots |
| MerkleConsistency.WalkMatchesRecursion | app/transparency_merkle.py:214-243 | for all sizes the sides the loop reads off the bits of the two sizes are those of the recursive proof |
| MerkleConsistency.WalkOfExact | app/transparency_merkle.py:221-243 | a walk of any length is a prefix of those sides, or all of them followed by left steps only |
| MerkleConsistency.SubproofShape | app/transparency_merkle.py:340-346 | a generated subproof is the siblings along the cut, led by the innermost subtree root unless the cut is a complete subtree |
| MerkleConsistency.ReplayRebuildsRoots | app/transparency_merkle.py:185-196 | replaying the siblings outward rebuilds the root of the first m leaves and of all n |
| MerkleConsistency.ConsistencyPathBound | app/transparency_merkle.py:340-346 | consistency paths have at most ceil(log2 n) + 1 hashes, at most 18 at the log's entry cap |
| MerkleConsistency.GeneratedPathAccepted | app/transparency_merkle.py:185-244 | for all lists and 1 <= m <= n the generated path is accepted if and only if it has at most 256 hashes |
| MerkleConsistency.ConsistencyCompleteness | app/transparency_merkle.py:185-244 | hence it is always accepted for n <= 2^255 |
| MerkleSoundness.ReplayBinds | app/transparency_merkle.py:214-244 | any replay, over any sides, that ends in two genuine roots makes the old list a prefix of the new one on sides that fit both sizes, or a collision is computed |
| MerkleSoundness.FittingWalkIsExact | app/transparency_merkle.py:214-244 | a walk whose sides fit the sizes has exactly the length of the recursive proof, although the loop never checks it |
| MerkleSoundness.ConsistencySoundness | app/transparency_merkle.py:199-244 | acceptance against the roots of D and E means D is a prefix of E and the path is the generated one, or a collision is computed |
| MerkleSoundness.ConsistencyDecides | app/transparency_merkle.py:199-244 | against genuine roots the verifier decides "prefix, with the generated path of at most 256 hashes", both directions, up to a computed collision |
| MerkleSoundness.EmptyPathAccepted | app/transparency_merkle.py:199-244 | an empty path between different sizes is accepted exactly when the roots are equal and the old size is a power of two |
| MerkleRfc.RfcLoopOfExact | app/transparency_merkle.py:221-243 | on the bits of two sizes the loop of RFC 9162 fails unless there is one hash per side, and otherwise computes what the code's loop computes |
| MerkleRfc.RfcIsTheLengthCheck | app/transparency_merkle.py:199-244 | for all digests RFC 9162 accepts a path of at most 256 hashes if and only if the code accepts it and its length is the one the two sizes call for |
| MerkleRfc.GeneratedLength | app/transparency_merkle.py:185-196 | every generated path has that length |
| MerkleRfc.ShortPathAccepted | app/transparency_merkle.py:199-244 | an instance: sizes 3 and 4, one root r and path [r] are accepted by the code and rejected by the standard |
| MerkleCuts.ReplayCutIsPrefixRoot | app/transparency_merkle.py:214-244 | a replay of any sides whose new hash is the root of a list ends with the root of a prefix of that list as its old hash, or a collision is computed |
| MerkleCuts.OldRootIsPrefixRoot | app/transparency_merkle.py:199-244 | acceptance against one genuine new root makes the old root, whatever it was claimed to be, the root of a prefix, or a collision is computed |
| Identifiers.RootTransitionIdentifierInjective | app/transparency_log.py:540-546 | one identifier names one (previous epoch, next epoch, generation) |
| Identifiers.SigningKeyManifestIdentifierInjective | app/transparency_log.py:549-550 | one identifier names one (root fingerprint, generation) |
| Identifiers.IdentifierKindsDisjoint | app/transparency_log.py:540-550 | no identifier names artifacts of both kinds |
| TransparencyLog.VerifiedIsChained | app/transparency_log.py:390-471 | an accepted file is a chain: sequences from 1, each entry hash right and naming the one before, identifiers distinct, the state at the last entry, one entry per line |
| TransparencyLog.VerificationDecides | app/transparency_log.py:390-471 | a file and a tip state verify to a list of entries if and only if the file is the lines of exactly these entries, each checked against the ones before, and the state names the count, hash, type, identifier and time of the last |
| TransparencyLog.VerificationRefusals | app/transparency_log.py:390-471 | which refusal is a divergence from the state and which a state that does not match, field by field |
| TransparencyLog.TipBindsChain | app/transparency_log.py:414-460 | two chains of one length and tip hash are equal, or an entry hash collision is computed, by backward induction |
| TransparencyLog.TipStatePinsLog | app/transparency_log.py:390-471 | two files that verify against one state hold the same entries, or a collision is computed |
| TransparencyLog.AppendVerifies | app/transparency_log.py:345-377 | the line and state a registration writes verify as the old entries and the new one: write limits meet read limits |
| TransparencyLog.RegisterIsClosed | app/transparency_log.py:331-387 | on a verified log an artifact is registered exactly when it is new, well formed and within the limits; then the log verifies one entry longer; otherwise neither file changes |
| TransparencyLog.OneEntryPerArtifact | app/transparency_log.py:143-179 | every entry of a verified log has metadata of its type and the identifier made of it, and the log has one entry per pair of root epochs and generation and one per root and manifest generation |
| TransparencyLog.RegisteredIffItFits | app/transparency_log.py:331-387 | a new artifact is registered exactly when it is well formed, the log has room and its line is within the size limits |
| TransparencyLog.RegistrationRecordsArtifact | app/transparency_log.py:331-387 | a registration adds one entry that carries every field of the artifact, the caller's time, the next sequence number and the old tip hash; its answer and the new state carry that entry's own number, hash, time, type, identifier and digest |
| TransparencyLog.RegisterIsIdempotent | app/transparency_log.py:345-351 | registering an identifier again changes nothing, and answers with the entry if and only if type and digest agree |
| TransparencyLog.RequirementIsAnswered | app/transparency_log.py:311-328 | an artifact is found exactly when the log has an entry with its identifier, type and digest, and then that entry is the answer |
| TransparencyLogFiles.VerifyUnlocked | app/transparency_log.py:390-471 | the loop accepts and rejects as specified, and its index, hash list and counters describe exactly the entries (index size = entry count = root count + manifest count) |
| TransparencyLogFiles.RequireAgrees | app/transparency_log.py:311-328 | looking an artifact up in the index is looking it up in the entries |
| TransparencyLogFiles.LogFiles.Register | app/transparency_log.py:331-387 | an uninterrupted registration has exactly the specified result and effect on both files, and its second verification succeeds |
| LogProtocol.StepKeepsInvariant | app/transparency_log.py:331-387 | every step of every process (lock, check, append, torn append, replace state, release, crash) keeps mutual exclusion, what a half-done registration knows, and the last accepted log |
| LogProtocol.PartialAppendRefused | app/transparency_log.py:500-514 | any non-empty part of an appended line without its state makes every verification fail |
| LogProtocol.TornAppendKeeps | app/transparency_log.py:500-514 | a torn append leaves the old tip when nothing reached an existing file, and a refused log otherwise |
| LogProtocol.RunKeepsInvariant | app/transparency_log.py:300-387 | the invariant holds at every moment of every run |
| LogProtocol.AcceptedLogOnlyGrows | app/transparency_log.py:300-387 | over all runs with crashes, between two moments at which the log verifies it has only grown, by whole entries at its end |
| LogProtocol.RefusedForever | app/transparency_log.py:343-387 | once nobody holds the lock and the log is refused, no later step of anyone changes it and it stays refused |
| LogProtocol.CrashOutcome | app/transparency_log_state.py:116-145 | a crash leaves the log verifying at the last accepted tip or refused for ever; a verifying log becomes refused exactly when a dying append added bytes or created the file |
| LogProtocol.ReaderSeesAccepted | app/transparency_log.py:300-308 | a reader under the shared lock sees the last accepted log or a refusal, never a half-made change |
| LogRegistrations.StepProgresses | app/transparency_log.py:343-387 | every step of any process keeps how far a registration has come with its effect, until it unlocks or dies |
| LogRegistrations.RegistrationHasItsEffect | app/transparency_log.py:343-387 | in any run, between lock and unlock an uninterrupted registration turns the files it found into those of the undisturbed registration |
| LogRegistrations.RegistrationIsPossible | app/transparency_log.py:331-387 | in any world with all processes idle any process can take every step of any registration from lock to unlock, which leaves all idle and the files changed as specified |
| LogRegistrations.ReadersShare | app/transparency_log.py:300-308 | while a process holds the shared lock others can take it too, but not the exclusive one |
| Checkpoints.CheckpointPinsLog | app/transparency_checkpoint.py:270-279 | two verified logs that match checkpoints with one root hold the same entries, or a collision is computed |
| Checkpoints.CheckpointConsistencyRoundTrip | app/transparency_checkpoint.py:344-401 | between two checkpoints of one verified log a proof is always generated and always verifies |
| Checkpoints.ConsistencyProofIsOfItsCheckpoints | app/transparency_checkpoint.py:344-369 | a consistency proof is made exactly for two ordered sizes of the log the newer checkpoint is for, and carries the sizes and roots of both |
| Checkpoints.CheckpointInclusionRoundTrip | app/transparency_checkpoint.py:291-341 | every entry of a verified log gets an inclusion proof for its checkpoint, and it verifies at that entry's index |
| Checkpoints.InclusionProofIsOfItsEntry | app/transparency_checkpoint.py:291-317 | an inclusion proof is made exactly for an entry of the log the checkpoint is for, and carries that entry's hash, index and path |
| Checkpoints.InclusionPassesIffItLeadsToRoot | app/transparency_checkpoint.py:320-341 | a proof passes exactly when it is for this checkpoint and its siblings lead from its entry to the checkpoint's root; the result says what the proof says |
| Checkpoints.PassingProofNamesEntry | app/transparency_checkpoint.py:320-341 | a proof that passes against a checkpoint of a verified log names the log's entry with its sequence number and carries the generated path, or a collision is computed |
| Checkpoints.EarlierRootsArePrefixRoots | app/transparency_checkpoint.py:372-401 | one genuine root at the end of a chain of accepted heads makes every earlier root the root of a prefix of its list, or a collision is computed |
| Checkpoints.ChainIsPrefixChain | app/transparency_checkpoint.py:372-401 | two genuine heads of a chain have prefix-related lists whatever the other heads are, or a collision is computed |
| CheckpointStates.CheckpointStateFile.Apply | app/transparency_checkpoint_state.py:141-181 | the stored state and the result are those of the specified decision, and an error leaves the file alone |
| CheckpointStates.AppliedIffItExtends | app/transparency_checkpoint_state.py:141-181 | a call succeeds exactly when its evidence holds and the checkpoint starts, repeats or provably extends what is stored; it stores the checkpoint at its own time exactly when it starts or extends |
| CheckpointStates.ApplicationRefusals | app/transparency_checkpoint_state.py:150-181 | the exact condition of each refusal: bad proof, rollback, missing proof, split view |
| CheckpointStates.StateIsFirstOfItsSize | app/transparency_checkpoint_state.py:124-181 | after any calls the state is the checkpoint and time of the first accepted call that reached its size, or the state at the start |
| CheckpointStates.AppliedCheckpointsAgree | app/transparency_checkpoint_state.py:150-181 | over any calls, applied tree sizes never drop, log id and key id never change, one size never has two roots or digests |
| CheckpointStates.AppliedLogsFormPrefixChain | app/transparency_checkpoint_state.py:150-181 | the logs behind any two applied checkpoints with genuine roots are prefix-related, whatever else was applied, or a collision is computed |
| Witnesses.WitnessFiles.Create | app/transparency_witness.py:258-338 | a completed call returns, stores and writes exactly what the specification says, and an error changes no file |
| Witnesses.CreationIsAsAsked | app/transparency_witness.py:258-338 | a call completes if and only if it may, signs if and only if there is no statement to reuse, and then signs and stores the checkpoint, the stored head, the proof's digest and the call's time, with its own key |
| Witnesses.RefusalSaysWhy | app/transparency_witness.py:515-530 | the exact condition of each refusal: rollback, split view, missing proof, wrong proof, wrong statement |
| Witnesses.StatementsFormAnAccount | app/transparency_witness.py:440-461 | over any run each statement names the size and root of the one before it, the first those of the state at the start, carries a proof digest exactly when the size grew, and has the time of its call |
| Witnesses.WitnessNeverConflicts | app/transparency_witness.py:281-338 | over any completed calls a witness signs for one log only, sizes never drop, one size has one root, checkpoint and log key |
| Witnesses.WitnessedLogsFormPrefixChain | app/transparency_witness.py:281-338 | the logs behind any two signed statements with genuine roots are prefix-related, whatever else was signed, or a collision is computed |
| HonestLog.HonestLogIsApplied | app/transparency_checkpoint_state.py:141-181 | every checkpoint of a growing log that keeps its key, applied with the proof generated from the one before, is accepted, and the state ends at the last one |
| HonestLog.HonestLogIsWitnessed | app/transparency_witness.py:258-338 | a witness asked for each checkpoint of a growing log with the generated proofs signs every one, also when the log key changes as the tree grows |
| WitnessQuorum.ValidateStore | app/transparency_witness_trust.py:108-125 | the loop accepts exactly the stores with distinct ids, distinct keys and at least the quorum of active witnesses |
| WitnessQuorum.ValidStoreMeans | app/transparency_witness_trust.py:108-125 | a store is valid if and only if no two entries share an id or a key and at least the minimum of ids is active |
| WitnessQuorum.GetWitness | app/transparency_witness_trust.py:127-133 | the lookup finds an entry with the id, or there is none |
| WitnessQuorum.VerifyQuorum | app/transparency_quorum.py:42-101 | the loop succeeds exactly when every statement passes and enough distinct witnesses are counted, returns the checkpoint's fields and exactly their ids, tells a bad request and too few witnesses from a bad statement, and reports equivocation exactly when the first statement that does not pass is a repeat |
| WitnessQuorum.CountedWitnessSigned | app/transparency_quorum.py:59-101 | every counted witness has a fully verified statement among those given, although repeats are not verified |
| WitnessQuorum.StatementVerifiesIffAttested | app/transparency_witness_trust.py:182-205 | a statement verifies if and only if the store has its witness, its key signed it, all its fields are the checkpoint's and its time is within the witness's validity, not in the future, and before a revocation that the policy lets count |
| WitnessQuorum.CountedWitnessAttests | app/transparency_quorum.py:42-101 | every counted witness has a store entry and such a statement among those given, for the checkpoint the quorum is for |
| WitnessQuorum.QuorumIsEnough | app/transparency_quorum.py:54-101 | an accepted quorum has at least the store's minimum and at least the number asked for, of witnesses with different keys |
| WitnessQuorum.AcceptedIffFirstsAreAttested | app/transparency_quorum.py:42-101 | a quorum is accepted if and only if the store is for the log, the number asked for is at least its minimum, every statement is for this checkpoint, every witness's first one is attested, and enough witnesses are counted |
| WitnessQuorum.ActiveWitnessesSuffice | app/transparency_quorum.py:54-101 | statements that the store attests, at least one from every active witness, always make the store's own quorum |
| WitnessQuorum.CountedWitnessesAreTrusted | app/transparency_quorum.py:59-101 | every counted witness is in the trust store |
| WitnessQuorum.AcceptedInEveryOrder | app/transparency_quorum.py:59-101 | statements are accepted in every order if and only if each is valid by itself and enough witnesses are among them |
| WitnessQuorum.AcceptableInSomeOrder | app/transparency_quorum.py:59-101 | some order of the statements is accepted if and only if every one repeats the checkpoint, every witness among them has a valid one, and enough witnesses are among them |
| WitnessQuorum.OrderDecides | app/transparency_quorum.py:59-101 | one order is accepted and another rejected if and only if some order is acceptable and one of the statements is not valid by itself |
| WitnessQuorum.OrderIrrelevantForDistinctWitnesses | app/transparency_quorum.py:59-101 | with one statement per witness no permutation changes the outcome |
| WitnessQuorum.OrderMattersForRepeatedWitness | app/transparency_quorum.py:59-84 | an instance: a valid statement followed by a badly signed one of the same witness is accepted, the reverse order rejected |
| SplitView.OneWitnessSeesOneHistory | app/transparency_witness.py:281-338 | two statements of one witness's completed calls whose roots are genuine are for prefix-related logs, in whichever order they were made, or a collision is computed |
| SplitView.OneSizeOneRoot | app/transparency_witness.py:515-530 | a witness never signs two roots or two checkpoints for one tree size, genuine or not |
| SplitView.NoSplitView | app/transparency_quorum.py:59-101 | two accepted quorums of a and b out of N with a + b > N + f, at most f witnesses faulty: if the two checkpoints' roots are genuine their logs are prefix-related or a collision is computed, and one size has one root; nothing is assumed of other signed roots |
| SplitView.SmallerCheckpointIsPrefixRoot | app/transparency_quorum.py:59-101 | under the same quorums, if only the larger checkpoint is genuine, the smaller one's root is the root of a prefix of its list, or a collision is computed |
| SplitView.NoSplitLogs | app/transparency_checkpoint.py:270-279 | under the same quorums, two parties who verified their checkpoints against verified logs hold logs one of which extends the other entry by entry, or a collision is computed |
| SplitView.OwnRepeatIsReported | app/transparency_quorum.py:63-72 | of the second statements that a witness signing in one history did sign, exactly those for another tree size are reported as equivocation |
| SplitView.ReportedIsForgedOrOtherSize | app/transparency_quorum.py:63-72 | a report against such a witness means the reported statement was not signed by it or is for another tree size |
| SigningKeyManifests.ValidateManifest | app/signing_key_manifest.py:185-209 | the loop accepts exactly the manifests with ordered times, distinct ids, fingerprints and keys, and exactly one active key |
| SigningKeyManifests.OneActive | app/signing_key_manifest.py:185-209 | the counter of active keys is 1 exactly when one index holds the only active key |
| SigningKeyManifests.ValidManifestMeans | app/signing_key_manifest.py:185-209 | a manifest is valid if and only if its generation is positive, its times are ordered, no two of its keys share id, fingerprint or public key, and exactly one is active |
| TrustStates.TrustDirectory.InitializeRoot | app/root_trust_state.py:253-274 | initialisation succeeds once, with the given root and a positive epoch |
| TrustStates.TrustDirectory.ApplyRootTransition | app/root_trust_state.py:277-332 | the root state changes exactly as specified and only on success |
| TrustStates.AppliedIffInForce | app/root_transition.py:420-500 | a transition is applied if and only if it is of the current root field by field, both roots signed it in their roles, and the time is in its window and not before any of its times; the new root is its next root |
| TrustStates.RefusedByTime | app/root_transition.py:617-630 | the exact times at which a rightly signed transition is refused as from the future, expired or not yet valid |
| TrustStates.TrustDirectory.VerifyManifestWithRootState | app/signing_key_manifest.py:571-595 | the manifest state changes exactly as specified, only on success, and never below the caller's minimum |
| TrustStates.ManifestAcceptedIffInForce | app/signing_key_manifest.py:571-595 | a manifest is accepted if and only if the current root signed it and is named by it, it is valid and within its time, meets the minimum and follows the stored state; the state changes exactly when it is newer and the caller updates, and carries its fields |
| TrustStates.VerifiedManifestReports | app/signing_key_manifest.py:466-537 | what verification reports are the manifest's own fields and its one active key |
| TrustStates.ManifestStateIsSigned | app/manifest_trust_state.py:223-264 | over any run a manifest state that is present was stored by a manifest signed by the root it names, or was there at the start |
| TrustStates.TrustDirectory.RetireManifestState | app/manifest_trust_state.py:267-307 | the manifest state moves to the retired name of the current epoch, or nothing changes |
| TrustStates.RetiredIffCurrent | app/manifest_trust_state.py:267-307 | retiring succeeds exactly when there are a root and a manifest state of it and the epoch has no retired one yet |
| TrustStates.EvaluateAcceptsFollowers | app/manifest_trust_state.py:223-264 | a manifest is accepted exactly when it meets the minimum and follows the stored state under its root, and replaces it exactly when its generation is higher |
| TrustStates.EffectKeepsCoupling | app/manifest_trust_state.py:223-264 | every successful operation, transitions naming the manifest state, keeps it tied to the current root, and none forgets a retirement |
| TrustStates.RunKeepsCoupling | app/root_trust_state.py:291-321 | over all runs whose transitions name the manifest state, a present one carries the current root's id and fingerprint |
| TrustStates.UnnamedManifestBreaksCoupling | app/root_trust_state.py:295-303 | for a transition that does not name the manifest state the coupling survives exactly when there is no manifest state |
| TrustStates.UnnamedTransitionLeavesManifestBehind | app/root_trust_state.py:295-321 | for any two keys with different fingerprints there is a coupled directory and a doubly signed transition that succeeds unnamed, breaks the coupling, and is refused when it names the manifest state |
| TrustStates.GenerationNeverDrops | app/manifest_trust_state.py:236-264 | between retirements the generation never drops and one generation never has two digests |
| TrustStates.OneRetirementPerEpoch | app/manifest_trust_state.py:288-307 | no root epoch sees two successful retirements |
| RootChain.RootsAreLinked | app/root_trust_state.py:277-332 | between any two moments of a run the applied transitions, and nothing else, link the first root to the last, each signed by both of its roots and applied within its time window |
| RootChain.RootsGoBackToInitialization | app/root_trust_state.py:253-332 | over any run from an empty directory, a root state that is present is linked by the applied transitions to one initialisation, with its key, epoch and time, before which there was none |
| RootChain.EpochCountsTransitions | app/root_trust_state.py:277-332 | after n applied transitions from epoch e the state is at e + n, whatever else ran in between |
| RootChain.EveryHandOverIsSigned | app/root_transition.py:420-500 | every successful application hands over from the old root to the new one by a transition that names both, carries both signatures and is within its time window |
| RootChain.NoTransitionTwice | app/root_trust_state.py:304-321 | an applied transition can never be applied again, at any time and with any signature files |
| RootChain.AppliedMeansLogged | app/root_trust_state.py:403-450 | the entry point changes the root state only when the transition is in the verified log under its identifier and digest |
| RootChain.HandOverIsRecorded | app/transparency_log.py:252-271 | the entry a registered transition gets has the epochs, key ids, fingerprints and times of both of its roots as metadata |
| RootChain.TransitionArtifactIsWellFormed | app/transparency_log.py:252-271 | a valid transition makes a well-formed artifact exactly when its identifier has at most 512 characters |
| RootChain.RequirePersists | app/transparency_log.py:311-328 | what a prefix of a log answers about an artifact the longer log answers too |
| RootChain.SharedLogAgreement | app/root_trust_state.py:403-450 | two transitions from one epoch, found in the verified log at any two moments of a run with crashes, have one digest |
| RootChain.AppliedDeedIsLogged | app/root_trust_state.py:403-450 | a transition an installation applied through the entry point is in the verified log at the moment of the log's run when its call leaves the log |
| RootChain.InstallationsAgree | app/root_trust_state.py:403-450 | two installations that apply transitions only by entry-point calls made in one run of the log, with crashes, apply the same digest at every epoch both step from |
| CacheInventory.Status | app/persistent_cache_maintenance.py:82-169 | the scan fails with the first unsafe target or valid entry from before 1970, if there is one, and otherwise returns the specified inventory of valid, corrupt, lock, temporary and unknown files |
| CacheInventory.NamesAreBuilt | app/persistent_cache_maintenance.py:40-44 | entry, lock and temporary names are exactly key, key and random token put together |
| CacheInventory.ClassesMean | app/persistent_cache_maintenance.py:105-146 | a target's class is decided by its name and, for an entry, by being over 8 or 256 MiB, changed since it was listed, or holding what belongs under its key: the exact condition of each class |
| CacheInventory.FirstFailureIsFirst | app/persistent_cache_maintenance.py:105-135 | a scan fails with what the first failing target says, and only then |
| CacheInventory.StatusConserves | app/persistent_cache_maintenance.py:100-169 | the five classes and the entries that changed under the scan account for every listed file and byte |
| CacheInventory.StatusCounts | app/persistent_cache_maintenance.py:136-169 | every counter is the number of files of its own class and its bytes are their listed sizes |
| CacheInventory.StatusListsValidEntries | app/persistent_cache_maintenance.py:111-143 | the inventory lists exactly the valid entries, oldest write first, and satisfies its validator exactly when none is from before 1970 |
| CacheInventory.EntriesAreListedOldestFirst | app/persistent_cache_maintenance.py:121-152 | the entries are the valid files with the size and time they were listed with, by increasing time, then by key |
| CacheInventory.ReturnedStatusIsConsistent | app/schemas/persistent_cache_status.py:60-84 | every status that is returned satisfies its own validator |
| CachePruning.PlanPrune | app/persistent_cache_maintenance.py:172-227 | the plan is the shortest oldest-first prefix whose removal reaches the target; selected plus remaining is observed, in count and bytes |
| CachePruning.PlanIsShortest | app/persistent_cache_maintenance.py:191-213 | an oldest-first prefix reaches the target if and only if it is at least as long as the plan |
| CachePruning.PlanIsAccepted | app/schemas/persistent_cache_status.py:126-163 | every plan passes the plan schema's own validator |
| CacheExecution.CacheDirectory.RevalidateCandidate | app/persistent_cache_maintenance.py:312-380 | the stat, open, read, stat sequence decides as specified while others change the directory between the calls |
| CacheExecution.CacheDirectory.ExecuteCandidate | app/persistent_cache_maintenance.py:281-310 | one candidate yields the specified item, and at most that one file is unlinked |
| CacheExecution.CacheDirectory.AcquireLock | app/rag/file_embedding_cache.py:178-188 | taking the lock creates the lock file when it is missing and fails on an unsafe one |
| CacheExecution.CacheDirectory.ExecutePrune | app/persistent_cache_maintenance.py:229-279 | the loops, one lock for all embedding entries or one per parsed entry, return and do exactly what the specified run does |
| CacheSafety.RunReports | app/persistent_cache_maintenance.py:229-310 | under any interference and failure, items follow plan order and report as deleted exactly the unlinked files |
| CacheSafety.PruneAccounts | app/persistent_cache_maintenance.py:471-503 | deleted plus skipped is planned on success, a result passes its schema, and a raised error lists exactly the files this call unlinked |
| CacheSafety.StepDecides | app/persistent_cache_maintenance.py:281-380 | under any interference and failure a step deletes if and only if no call fails, three looks show one and the same planned regular file with a valid payload and something to unlink is left; the exact condition of each other outcome and error |
| CacheSafety.LockIsTakenWhenDue | app/persistent_cache_maintenance.py:245-269 | the embedding lock is taken once before the first candidate, a parsed entry's lock before that entry, and it is held exactly when its file is none or regular and neither call fails |
| CacheSafety.HandledUnderLock | app/persistent_cache_maintenance.py:245-269 | every candidate a run has handled was handled under its lock |
| CacheSafety.PruneReturnsIffAllHandled | app/persistent_cache_maintenance.py:270-279 | a prune returns exactly when every candidate was handled and any deletion was synchronised; otherwise it raises the failed synchronisation, or else the failure that ended it, with the items done |
| CacheSafety.LockedStepIsAtomic | app/persistent_cache_maintenance.py:281-380 | under the lock the stat, open, read, stat, unlink sequence decides like one look at the entry, and removes it exactly when it reports it deleted |
| CacheSafety.ProtectedStep | app/persistent_cache_maintenance.py:312-380 | if nobody else touches the entry meanwhile, what is unlinked is the file that was there, as planned and valid |
| CacheSafety.DeletedFilesWereUnchanged | app/persistent_cache_maintenance.py:245-269 | with the lock excluding writers of the locked entry, every deleted file had the planned size and time and a valid payload, and reported bytes are freed bytes |
| CacheSafety.RestatCoversTheRest | app/persistent_cache_maintenance.py:355-374 | under every interference with a given last moment before unlink, what is unlinked has the planned type, size and time if and only if that moment leaves of every such file nothing, a folder or such a file |
| CacheSafety.LastMomentDecides | app/persistent_cache_maintenance.py:285-294 | with everything quiet before it, every unlinked file is as planned and valid if and only if that moment leaves of every such entry nothing, a folder or such an entry |
| CacheSafety.ReplacementIsDeletedWithoutLock | app/persistent_cache_maintenance.py:285-294 | an instance: in that moment any replacement but a folder is deleted and reported as the planned entry; on a folder the unlink fails and nothing is deleted |
| CacheRemainder.LaterStatusIsTheRemainder | app/persistent_cache_maintenance.py:82-279 | inventory, plan, undisturbed execution, inventory: all candidates deleted, the rest is the plan's remainder in order, count and bytes, all other classes unchanged but for empty lock files |
| AuditReport.CountBy | app/audit_report.py:750-753 | the counting loop gives each key its number of events |
| AuditReport.FilterKeepsWanted | app/audit_report.py:304-326 | a filtered list has every event of the wanted model, status and window as often as before, no other, in the same order |
| AuditReport.EachEventCounts | app/audit_report.py:329-365 | one more event moves exactly its own counters: success, corrected, usage and tokens, or failure and one of the two retry counters |
| AuditReport.SortedCounter | app/audit_report.py:826-827 | the rows are exactly the counter's items, most frequent first, ties by name |
| AuditReport.BuildModelStats | app/audit_report.py:743-778 | one entry per occurring model, in name order, each with that model's own counts and tokens |
| AuditReport.BuildAuditReport | app/audit_report.py:329-365 | the integer fields describe exactly the events |
| AuditReport.ReportReads | app/audit_report.py:329-365 | read as a table: each row counts the failures with its error type or recovery action, largest first, and each model entry that model's own events and tokens |
| AuditReport.ReportIsAccepted | app/audit_report.py:243-276 | for every event list per-error, per-action and per-model counts and tokens sum to the totals, so the payload's integer cross checks never fail |
| AuditReport.WindowsAdd | app/audit_report.py:304-326 | the totals of [a, b) and [b, c) add to those of [a, c) |
| AuditReport.WindowGroupsAdd | app/audit_report.py:781-789 | so do the counts of every single error type, recovery action and model |
| Aggregation.GroupsConserve | app/audit_report.py:743-778 | grouping by distinct keys loses nothing and counts nothing twice |
| SchemaMigration.BuildMigrationPath | app/schema_migration.py:53-66 | the path is the consecutive version pairs from source to target, or the right error |
| SchemaMigration.RunMigrationStep | app/schema_migration.py:114-137 | a step succeeds exactly when the function returns a payload of the next version; it works on a copy, and an existing object it returns is passed on as it is |
| SchemaMigration.MigrateSchemaPayload | app/schema_migration.py:69-111 | the result has the specified contents, every error is the specified one, no existing object is written to, and the result is new unless the last step returned an existing object, which is then the result |
| SchemaMigration.StepsRefuse | app/schema_migration.py:93-137 | the steps fail as missing or as failed exactly when some version is reached from which there is no step, or one that does not return a payload of the next version |
| SchemaMigration.MigrationRefusals | app/schema_migration.py:69-111 | the exact condition of each of the six errors, in the order of the checks |
| SchemaMigration.ConstantStepIsReturned | app/schema_migration.py:114-137 | a last step that returns one and the same object makes the migration return that object |
| SchemaMigration.MigrationComposes | app/schema_migration.py:69-111 | two hops equal one migration, errors included, if and only if the version is not between the two targets |
| SchemaMigration.MigrationReachesTarget | app/schema_migration.py:109-111 | a successful migration always ends at the target version |

## Left out

- SHA-256, Ed25519, base64, canonical JSON and strict JSON parsing: abstract functions; `ValidCodec` states what is assumed of the log's JSON.
- File plumbing: temporary files, fsync, chmod, symlink and size checks of small files, environment variables. Atomic replacement is one step; appending to the log is not.
- Crashes between the two writes of `create_transparency_witness_statement`, so the witness theorems are about calls that complete.
- Crashes and interleavings inside the root and manifest trust operations; their runs are sequential.
- Load failures of statement, proof, checkpoint and state files, which raise before anything is decided.
- Parts of payload validation with no bearing on the properties: key-id and filename patterns, per-key validity windows of a manifest, the metadata times of log entries.
- `_verify_consistency_recursive`, which the verifier does not use.
- `verify_signing_key_manifest_with_state` and `verify_signing_key_manifest_with_root_state_and_transparency`; the latter updates the manifest state before it consults the log.
- The offline verifier and the gossip bundle, which repeat the inclusion and quorum checks on files.
- Checkpoint creation and the checkpoint's own signature; `Checkpoints` starts from the comparison with the log.
- TrustStates.EffectKeepsCoupling: covers transitions that name the active manifest path; the others are covered by `UnnamedManifestBreaksCoupling`.
- CacheInventory.Status: oldest and newest modification times of a status are left out, and the order in which a directory is listed is taken as given, because nothing reported depends on it.
- CacheExecution.CacheDirectory.RevalidateCandidate: a descriptor reads the file as it was when opened, because the caches replace entry files and never rewrite them; devices are one.
- AuditReport.BuildAuditReport: no float fields (rates, averages, latencies), because rounding decides them, and no parsing of audit lines.
- SchemaMigration.MigrateSchemaPayload: steps are deterministic functions of the payload, an existing object that a step returns is not changed by others during the migration, and a payload is its version field and one opaque rest.
- `app/cli.py`, the scripts, the report text formats, archive checks, budgets and recovery tables: argument handling, printing and single-branch checks.
