/**
 The root trust state (app/root_trust_state.py) and the manifest trust state
 (app/manifest_trust_state.py) of one installation, and how they hold each other in check:
 a manifest state is bound to one root, and must be retired before the root moves on.
 */
module TrustStates {
  import opened Wrappers
  import opened Hashing
  import opened RootTransitions
  import opened SigningKeyManifests

  datatype RootState = RootState(
    epoch: int, keyId: string, publicKey: Key, fingerprint: Digest,
    lastTransitionGeneration: nat, lastTransitionSha256: Option<Digest>, updatedAt: int)

  datatype ManifestState = ManifestState(
    rootKeyId: string, rootFingerprint: Digest, highestGeneration: int, manifestSha256: Digest,
    manifestIssuedAt: int, verifiedAt: int)

  /** The files: the two states and the epochs that have a retired manifest state beside them. */
  datatype Files = Files(root: Option<RootState>, manifest: Option<ManifestState>, retired: set<int>)

  function RootKeyOf(s: RootState): RootKey {
    RootKey(s.keyId, s.publicKey, s.fingerprint)
  }

  // ---------------------------------------------------------------- the decisions

  function InitialRootState(key: RootKey, epoch: int, at: int): RootState {
    RootState(epoch, key.keyId, key.publicKey, key.fingerprint, 0, None, at)
  }

  /** initialize_root_trust_state */
  function Initialize(files: Files, key: RootKey, epoch: int, at: int): Result<Files, RootError> {
    if files.root.Some? then Err(StateExists)
    else if epoch < 1 then Err(WrongEpoch)
    else Ok(files.(root := Some(InitialRootState(key, epoch, at))))
  }

  function NextRootState(r: TransitionResult, at: int): RootState {
    var next := r.transition.nextRoot;
    RootState(next.epoch, next.keyId, next.publicKey, next.fingerprint, ROOT_TRANSITION_GENERATION,
        Some(r.transitionSha256), at)
  }

  /** apply_root_transition; `namesManifest` says whether the caller names the active manifest state. */
  function ApplyTransition(
    k: Scheme, files: Files, f: TransitionFiles, time: int, namesManifest: bool
  ): Result<Files, RootError> {
    match files.root
    case None => Err(RootError.StateMissing)
    case Some(current) =>
      if namesManifest && files.manifest.Some? then Err(ManifestStatePresent)
      else
        match VerifyRootTransition(k, f, RootKeyOf(current), current.epoch, time)
        case Err(error) => Err(error)
        case Ok(r) =>
          if !r.isActive then Err(RootError.NotYetValid)
          else if r.transition.nextRoot.epoch != current.epoch + 1 then Err(WrongEpoch)
          else Ok(files.(root := Some(NextRootState(r, time))))
  }

  datatype Mode = ReadOnly | Update

  function Max(a: int, b: int): int {
    if a >= b then a else b
  }

  /** evaluate_manifest_trust_state: the effective minimum and whether the state is to be replaced. */
  function Evaluate(
      m: VerifiedManifest, stored: Option<ManifestState>, minimum: int
  ): Result<(int, bool), ManifestError> {
    if minimum < 1 then Err(Invalid)
    else
      var effective := match stored case None => minimum case Some(s) => Max(minimum, s.highestGeneration);
      if m.generation < effective then Err(Rollback)
      else
        match stored
        case None => Ok((effective, true))
        case Some(s) =>
          if m.rootKeyId != s.rootKeyId || m.rootFingerprint != s.rootFingerprint then Err(RootMismatch)
          else if m.generation == s.highestGeneration then
            if m.manifestSha256 != s.manifestSha256 then Err(GenerationConflict) else Ok((effective, false))
          else Ok((effective, true))
  }

  function BuildManifestState(m: VerifiedManifest, at: int): ManifestState {
    ManifestState(m.rootKeyId, m.rootFingerprint, m.generation, m.manifestSha256, m.issuedAt, at)
  }

  /** apply_manifest_trust_state with a state path. */
  function ApplyManifest(
    files: Files, m: VerifiedManifest, at: int, minimum: int, mode: Mode, requireExisting: bool
  ): Result<Files, ManifestError> {
    if requireExisting && files.manifest.None? then Err(ManifestError.StateMissing)
    else
      match Evaluate(m, files.manifest, minimum)
      case Err(error) => Err(error)
      case Ok((_, shouldUpdate)) =>
        Ok(if mode.Update? && shouldUpdate then files.(manifest := Some(BuildManifestState(m, at))) else files)
  }

  /** verify_signing_key_manifest_with_root_state, given the current root state. */
  function VerifyWithRootState(
    digest: Manifest -> Digest, files: Files, f: ManifestFiles, time: int, minimum: int, mode: Mode,
        requireExisting: bool
  ): Result<Files, ManifestError> {
    match files.root
    case None => Err(ManifestError.StateMissing)
    case Some(root) =>
      match VerifyManifest(digest, f, RootKeyOf(root), time, minimum)
      case Err(error) => Err(error)
      case Ok(m) => ApplyManifest(files, m, time, minimum, mode, requireExisting)
  }

  /** retire_manifest_trust_state, given the current root state. */
  function Retire(files: Files): Result<Files, ManifestError> {
    match files.root
    case None => Err(ManifestError.StateMissing)
    case Some(root) =>
      match files.manifest
      case None => Err(ManifestError.StateMissing)
      case Some(s) =>
        if s.rootKeyId != root.keyId || s.rootFingerprint != root.fingerprint then Err(RootMismatch)
        else if root.epoch < 1 || root.epoch in files.retired then Err(RetirementFailed)
        else Ok(files.(manifest := None, retired := files.retired + {root.epoch}))
  }

  // ---------------------------------------------------------------- what the decisions mean

  const FIVE_MINUTES: int := 5 * 60 * 1_000_000  // in microseconds

  /** The signature file of one root on a transition, field by field. */
  predicate RootSigns(k: Scheme, s: TransitionSignature, role: SignerRole, signer: KeyEntry, f: TransitionFiles) {
    && s.role == role && s.signerEpoch == signer.epoch && s.signerKeyId == signer.keyId
    && s.signerFingerprint == signer.fingerprint && s.filename == f.filename
    && s.transitionSha256 == k.transitionDigest(f.transition)
    && s.signedWith == signer.publicKey && s.message == f.transition
  }

  /** A transition that may move this root at this time, field by field. */
  predicate TransitionInForce(k: Scheme, root: RootState, f: TransitionFiles, time: int) {
    var t := f.transition;
    var next := t.nextRoot;
    && t.previousRoot == KeyEntry(root.epoch, root.keyId, root.publicKey, root.fingerprint)
    && root.epoch >= 1 && next.epoch == root.epoch + 1
    && root.fingerprint == k.fingerprint(root.publicKey) && next.fingerprint == k.fingerprint(next.publicKey)
    && next.keyId != root.keyId && next.publicKey != root.publicKey && next.fingerprint != root.fingerprint
    && t.validFrom <= time < t.validUntil && t.issuedAt <= t.validUntil
    && t.issuedAt <= time + FIVE_MINUTES
    && f.previousSignature.signedAt <= time + FIVE_MINUTES && f.nextSignature.signedAt <= time + FIVE_MINUTES
    && RootSigns(k, f.previousSignature, PreviousRoot, t.previousRoot, f)
    && RootSigns(k, f.nextSignature, NextRoot, next, f)
  }

  /**
   A transition is applied exactly when it is in force and meets no named manifest state, and then
   the root is its next root.
   */
  lemma {:induction false} AppliedIffInForce(k: Scheme, files: Files, f: TransitionFiles, time: int, names: bool)
    ensures ApplyTransition(k, files, f, time, names).Ok? <==>
            && files.root.Some? && (names ==> files.manifest == None)
            && TransitionInForce(k, files.root.value, f, time)
    ensures ApplyTransition(k, files, f, time, names).Ok? ==>
              var g, next := ApplyTransition(k, files, f, time, names).value, f.transition.nextRoot;
              && g.manifest == files.manifest && g.retired == files.retired
              && g.root == Some(RootState(next.epoch, next.keyId, next.publicKey, next.fingerprint, 1,
                                          Some(k.transitionDigest(f.transition)), time))
  {
  }

  /**
   Before and after its time: a valid transition of the current root, signed by both roots, is
   refused as from the future, as expired or as not yet valid, by its times alone.
   */
  lemma {:induction false} RefusedByTime(k: Scheme, files: Files, f: TransitionFiles, time: int)
    requires files.root.Some? && ValidTransition(k, f.transition)
    requires var r := files.root.value;
             f.transition.previousRoot == KeyEntry(r.epoch, r.keyId, r.publicKey, r.fingerprint)
    requires RootSigns(k, f.previousSignature, PreviousRoot, f.transition.previousRoot, f)
    requires RootSigns(k, f.nextSignature, NextRoot, f.transition.nextRoot, f)
    ensures var t, r := f.transition, ApplyTransition(k, files, f, time, false);
            var future := t.issuedAt > time + FIVE_MINUTES || f.previousSignature.signedAt > time + FIVE_MINUTES
                          || f.nextSignature.signedAt > time + FIVE_MINUTES;
            && (r == Err(RootError.FromFuture) <==> future)
            && (r == Err(RootError.Expired) <==> !future && t.validUntil <= time)
            && (r == Err(RootError.NotYetValid) <==> !future && time < t.validFrom)
            && (r.Ok? <==> !future && t.validFrom <= time < t.validUntil)
  {
  }

  /** A manifest this root vouches for at this time, field by field. */
  predicate ManifestInForce(digest: Manifest -> Digest, root: RootState, f: ManifestFiles, time: int) {
    var m, s := f.manifest, f.signature;
    && m.generation >= 1 && m.issuedAt <= m.validUntil && UsableKeys(m.keys)
    && m.issuerKeyId == root.keyId == s.rootKeyId && m.issuerFingerprint == root.fingerprint == s.rootFingerprint
    && s.generation == m.generation && s.filename == f.filename && s.manifestSha256 == digest(m)
    && s.signedWith == root.publicKey && s.message == m
    && m.validFrom <= time < m.validUntil
    && m.issuedAt <= time + FIVE_MINUTES && s.signedAt <= time + FIVE_MINUTES
  }

  /** What the stored state demands of the next manifest of the same root. */
  predicate StoredStateAllows(stored: Option<ManifestState>, root: RootState, generation: int, sha256: Digest) {
    stored == None ||
    var s := stored.value;
    && s.rootKeyId == root.keyId && s.rootFingerprint == root.fingerprint
    && (generation > s.highestGeneration || (generation == s.highestGeneration && sha256 == s.manifestSha256))
  }

  /** Whether the manifest is news to the stored state. */
  predicate IsNews(stored: Option<ManifestState>, generation: int) {
    stored == None || stored.value.highestGeneration < generation
  }

  /**
   A manifest is accepted exactly when the current root vouches for it, it meets the caller's
   minimum and the stored state allows it; the state then changes exactly when it is news and the
   caller updates, and carries the fields of that manifest.
   */
  lemma {:induction false} ManifestAcceptedIffInForce(
    digest: Manifest -> Digest, files: Files, f: ManifestFiles, time: int, minimum: int, mode: Mode,
    requireExisting: bool)
    ensures VerifyWithRootState(digest, files, f, time, minimum, mode, requireExisting).Ok? <==>
            && files.root.Some? && ManifestInForce(digest, files.root.value, f, time)
            && 1 <= minimum <= f.manifest.generation
            && (requireExisting ==> files.manifest.Some?)
            && StoredStateAllows(files.manifest, files.root.value, f.manifest.generation, digest(f.manifest))
    ensures VerifyWithRootState(digest, files, f, time, minimum, mode, requireExisting).Ok? ==>
              var g, m := VerifyWithRootState(digest, files, f, time, minimum, mode, requireExisting).value, f.manifest;
              && g.root == files.root && g.retired == files.retired
              && g.manifest ==
                 if mode == Update && IsNews(files.manifest, m.generation) then
                   Some(ManifestState(files.root.value.keyId, files.root.value.fingerprint, m.generation, digest(m),
                                      m.issuedAt, time))
                 else files.manifest
  {
    hide ValidManifest, UsableKeys;
    ValidManifestMeans(f.manifest);
  }

  /** What verification reports of a manifest it accepts, the one active key among it. */
  lemma {:induction false} VerifiedManifestReports(
    digest: Manifest -> Digest, f: ManifestFiles, root: RootKey, time: int, minimum: int, i: nat)
    requires VerifyManifest(digest, f, root, time, minimum).Ok?
    requires i < |f.manifest.keys| && OnlyActive(f.manifest.keys, i)
    ensures var m := f.manifest;
            1 <= minimum <= m.generation
            && VerifyManifest(digest, f, root, time, minimum).value
            == VerifiedManifest(m.generation, m.issuedAt, root.keyId, root.fingerprint, m.keys[i].keyId, |m.keys|,
                                digest(m))
  {
    ActiveKeyIsReported(f.manifest.keys, i);
  }

  lemma {:induction false} ActiveKeyIsReported(keys: seq<ManifestKey>, i: nat)
    requires i < |keys| && OnlyActive(keys, i)
    ensures ActiveKeyId(keys) == keys[i].keyId
  {
    if i > 0 {
      assert forall j | 0 <= j < |keys[1..]| :: keys[1..][j] == keys[j + 1];
      ActiveKeyIsReported(keys[1..], i - 1);
    }
  }

  /** A root state is initialised exactly once, at a positive epoch, with the key given and no transition behind it. */
  lemma {:induction false} InitialisedOnce(files: Files, key: RootKey, epoch: int, at: int)
    ensures Initialize(files, key, epoch, at) ==
            if files.root.Some? then Err(StateExists)
            else if epoch < 1 then Err(WrongEpoch)
            else Ok(Files(Some(RootState(epoch, key.keyId, key.publicKey, key.fingerprint, 0, None, at)),
                          files.manifest, files.retired))
  {
  }

  /** A manifest state is retired exactly when it is the current root's, under that root's epoch and once. */
  lemma {:induction false} RetiredIffCurrent(files: Files)
    ensures Retire(files).Ok? <==>
            && files.root.Some? && files.manifest.Some? && files.root.value.epoch >= 1
            && files.manifest.value.rootKeyId == files.root.value.keyId
            && files.manifest.value.rootFingerprint == files.root.value.fingerprint
            && files.root.value.epoch !in files.retired
    ensures Retire(files).Ok? ==>
              var g := Retire(files).value;
              g.root == files.root && g.manifest == None && g.retired == files.retired + {files.root.value.epoch}
  {
  }

  // ---------------------------------------------------------------- the files

  class TrustDirectory {
    const scheme: Scheme
    const manifestDigest: Manifest -> Digest
    var root: Option<RootState>
    var manifest: Option<ManifestState>
    var retired: set<int>

    constructor (scheme: Scheme, manifestDigest: Manifest -> Digest)
      ensures this.scheme == scheme && this.manifestDigest == manifestDigest
      ensures Contents() == Files(None, None, {})
    {
      this.scheme, this.manifestDigest := scheme, manifestDigest;
      root, manifest, retired := None, None, {};
    }

    function Contents(): Files
      reads this
    {
      Files(root, manifest, retired)
    }

    method InitializeRoot(key: RootKey, epoch: int, at: int) returns (r: Result<RootState, RootError>)
      modifies this`root
      ensures match Initialize(old(Contents()), key, epoch, at)
              case Err(error) => r == Err(error) && Contents() == old(Contents())
              case Ok(files) => r == Ok(InitialRootState(key, epoch, at)) && Contents() == files
    {
      if root.Some? { return Err(StateExists); }
      if epoch < 1 { return Err(WrongEpoch); }
      var state := InitialRootState(key, epoch, at);
      root := Some(state);
      return Ok(state);
    }

    method ApplyRootTransition(
        f: TransitionFiles, time: int, namesManifest: bool
    ) returns (r: Result<TransitionResult, RootError>)
      modifies this`root
      ensures match ApplyTransition(scheme, old(Contents()), f, time, namesManifest)
              case Err(error) => r == Err(error) && Contents() == old(Contents())
              case Ok(files) =>
                && r == Ok(TransitionResult(f.transition, scheme.transitionDigest(f.transition), true))
                && Contents() == files
    {
      if root.None? { return Err(RootError.StateMissing); }
      if namesManifest && manifest.Some? { return Err(ManifestStatePresent); }
      var current := root.value;
      var verified := VerifyRootTransition(scheme, f, RootKeyOf(current), current.epoch, time);
      if verified.Err? { return Err(verified.error); }
      if !verified.value.isActive { return Err(RootError.NotYetValid); }
      if verified.value.transition.nextRoot.epoch != current.epoch + 1 { return Err(WrongEpoch); }
      root := Some(NextRootState(verified.value, time));
      return Ok(verified.value);
    }

    method VerifyManifestWithRootState(
      f: ManifestFiles, time: int, minimum: int, mode: Mode, requireExisting: bool
    ) returns (r: Result<VerifiedManifest, ManifestError>)
      modifies this`manifest
      ensures match VerifyWithRootState(manifestDigest, old(Contents()), f, time, minimum, mode, requireExisting)
              case Err(error) => r == Err(error) && Contents() == old(Contents())
              case Ok(files) =>
                && r == VerifyManifest(manifestDigest, f, RootKeyOf(old(root).value), time, minimum)
                && Contents() == files && r.value.generation >= minimum
    {
      if root.None? { return Err(ManifestError.StateMissing); }
      var verified := VerifyManifest(manifestDigest, f, RootKeyOf(root.value), time, minimum);
      if verified.Err? { return Err(verified.error); }
      if requireExisting && manifest.None? { return Err(ManifestError.StateMissing); }
      var decision := Evaluate(verified.value, manifest, minimum);
      if decision.Err? { return Err(decision.error); }
      if mode.Update? && decision.value.1 {
        manifest := Some(BuildManifestState(verified.value, time));
      }
      return Ok(verified.value);
    }

    method RetireManifestState() returns (r: Result<int, ManifestError>)
      modifies this`manifest, this`retired
      ensures match Retire(old(Contents()))
              case Err(error) => r == Err(error) && Contents() == old(Contents())
              case Ok(files) => r == Ok(root.value.epoch) && Contents() == files
    {
      if root.None? || manifest.None? { return Err(ManifestError.StateMissing); }
      if manifest.value.rootKeyId != root.value.keyId || manifest.value.rootFingerprint != root.value.fingerprint {
        return Err(RootMismatch);
      }
      if root.value.epoch < 1 || root.value.epoch in retired { return Err(RetirementFailed); }
      manifest, retired := None, retired + {root.value.epoch};
      return Ok(root.value.epoch);
    }
  }

  // ---------------------------------------------------------------- runs

  datatype Op =
    | InitializeOp(key: RootKey, epoch: int, at: int)
    | TransitionOp(files: TransitionFiles, at: int, namesManifest: bool)
    | VerifyOp(manifest: ManifestFiles, at: int, minimum: int, mode: Mode, requireExisting: bool)
    | RetireOp

  /** The files after one operation, or none if the operation fails and changes nothing. */
  function Effect(k: Scheme, digest: Manifest -> Digest, files: Files, op: Op): Option<Files> {
    match op
    case InitializeOp(key, epoch, at) =>
      (match Initialize(files, key, epoch, at) case Ok(g) => Some(g) case Err(_) => None)
    case TransitionOp(f, at, names) =>
      (match ApplyTransition(k, files, f, at, names) case Ok(g) => Some(g) case Err(_) => None)
    case VerifyOp(f, at, minimum, mode, requireExisting) =>
      (match VerifyWithRootState(digest, files, f, at, minimum, mode,
          requireExisting) case Ok(g) => Some(g) case Err(_) => None)
    case RetireOp => (match Retire(files) case Ok(g) => Some(g) case Err(_) => None)
  }

  predicate Succeeds(k: Scheme, digest: Manifest -> Digest, files: Files, op: Op) {
    Effect(k, digest, files, op).Some?
  }

  /** The files after the first n operations of a run. */
  function After(k: Scheme, digest: Manifest -> Digest, start: Files, ops: seq<Op>, n: nat): Files
    requires n <= |ops|
  {
    if n == 0 then start
    else
      var before := After(k, digest, start, ops, n - 1);
      match Effect(k, digest, before, ops[n - 1]) case Some(g) => g case None => before
  }

  /** A transition of the run names the active manifest path, as callers are meant to. */
  predicate NamesManifest(op: Op) {
    op.TransitionOp? ==> op.namesManifest
  }

  /** A present manifest state carries the id and the fingerprint of the current root. */
  predicate Coupled(files: Files) {
    files.manifest.Some? ==>
      && files.root.Some?
      && files.manifest.value.rootKeyId == files.root.value.keyId
      && files.manifest.value.rootFingerprint == files.root.value.fingerprint
  }

  lemma {:induction false} EffectKeepsCoupling(k: Scheme, digest: Manifest -> Digest, files: Files, op: Op)
    requires Coupled(files) && Succeeds(k, digest, files, op) && NamesManifest(op)
    ensures Coupled(Effect(k, digest, files, op).value)
    ensures files.retired <= Effect(k, digest, files, op).value.retired
    ensures op.RetireOp? ==> files.root.value.epoch in Effect(k, digest, files, op).value.retired
  {
    hide VerifyRootTransition, ValidManifest;
  }

  /** Over all runs whose transitions name it: the manifest state, while there is one, belongs to the current root. */
  lemma {:induction false} RunKeepsCoupling(k: Scheme, digest: Manifest -> Digest, start: Files, ops: seq<Op>, n: nat)
    requires Coupled(start) && n <= |ops| && forall i | 0 <= i < n :: NamesManifest(ops[i])
    ensures Coupled(After(k, digest, start, ops, n))
  {
    hide Effect, Coupled;
    if n > 0 {
      RunKeepsCoupling(k, digest, start, ops, n - 1);
      var before := After(k, digest, start, ops, n - 1);
      if Succeeds(k, digest, before, ops[n - 1]) {
        EffectKeepsCoupling(k, digest, before, ops[n - 1]);
      }
    }
  }

  /**
   Why the transition must name the active manifest path: left out, it succeeds although a
   manifest state is present, and the coupling survives it exactly when there was none.
   */
  lemma {:induction false} UnnamedManifestBreaksCoupling(k: Scheme, files: Files, f: TransitionFiles, time: int)
    requires Coupled(files) && ApplyTransition(k, files, f, time, false).Ok?
    ensures Coupled(ApplyTransition(k, files, f, time, false).value) <==> files.manifest.None?
    ensures files.manifest.None? <==> ApplyTransition(k, files, f, time, true).Ok?
  {
  }

  /**
   And it does happen: for any two root keys with different fingerprints there is a coupled
   directory with a manifest state, and a transition signed by both, that succeeds unnamed and
   leaves that manifest state to a root that is no longer current.
   */
  lemma {:induction false} UnnamedTransitionLeavesManifestBehind(k: Scheme, a: Key, b: Key)
    returns (files: Files, f: TransitionFiles)
    requires k.fingerprint(a) != k.fingerprint(b)
    ensures Coupled(files) && files.manifest.Some?
    ensures ApplyTransition(k, files, f, 1, false).Ok? && !Coupled(ApplyTransition(k, files, f, 1, false).value)
    ensures ApplyTransition(k, files, f, 1, true) == Err(ManifestStatePresent)
  {
    var t := Transition(0, 0, 2, KeyEntry(1, "first", a, k.fingerprint(a)), KeyEntry(2, "second", b, k.fingerprint(b)));
    var digest := k.transitionDigest(t);
    f := TransitionFiles("transition.json", t,
                         TransitionSignature(PreviousRoot, 1, "first", k.fingerprint(a), 0, digest, "transition.json",
                             a, t),
                         TransitionSignature(NextRoot, 2, "second", k.fingerprint(b), 0, digest, "transition.json", b,
                             t));
    files := Files(Some(InitialRootState(RootKey("first", a, k.fingerprint(a)), 1, 0)),
                   Some(ManifestState("first", k.fingerprint(a), 1, digest, 0, 0)), {});
  }

  /**
   Operation n of a run is a verification whose manifest the root of that moment signed, and this
   state is what it stored.
   */
  predicate StoredBy(
    digest: Manifest -> Digest, before: Files, op: Op, s: ManifestState) {
    && op.VerifyOp? && op.mode == Update && before.root.Some?
    && ManifestInForce(digest, before.root.value, op.manifest, op.at)
    && s == ManifestState(before.root.value.keyId, before.root.value.fingerprint, op.manifest.manifest.generation,
                          digest(op.manifest.manifest), op.manifest.manifest.issuedAt, op.at)
  }

  /** Over all runs: a manifest state that is present was stored from a manifest signed by the root it names. */
  lemma {:induction false} ManifestStateIsSigned(
    k: Scheme, digest: Manifest -> Digest, start: Files, ops: seq<Op>, n: nat) returns (i: nat)
    requires start.manifest == None && n <= |ops|
    requires After(k, digest, start, ops, n).manifest.Some?
    ensures i < n
    ensures StoredBy(digest, After(k, digest, start, ops, i), ops[i], After(k, digest, start, ops, n).manifest.value)
  {
    hide ManifestInForce, VerifyWithRootState, ApplyTransition;
    var before, op := After(k, digest, start, ops, n - 1), ops[n - 1];
    if After(k, digest, start, ops, n).manifest == before.manifest {
      i := ManifestStateIsSigned(k, digest, start, ops, n - 1);
    } else {
      i := n - 1;
      match op {
        case VerifyOp(f, at, minimum, mode, requireExisting) =>
          ManifestAcceptedIffInForce(digest, before, f, at, minimum, mode, requireExisting);
        case TransitionOp(f, at, names) => AppliedIffInForce(k, before, f, at, names);
        case _ =>
      }
    }
  }

  /** Nothing was retired between two moments of a run. */
  predicate NoRetirement(k: Scheme, digest: Manifest -> Digest, start: Files, ops: seq<Op>, i: nat, j: nat)
    requires i <= j <= |ops|
  {
    forall n | i <= n < j :: !(ops[n].RetireOp? && Succeeds(k, digest, After(k, digest, start, ops, n), ops[n]))
  }

  predicate GenerationFollows(earlier: ManifestState, later: ManifestState) {
    && earlier.highestGeneration <= later.highestGeneration
    && (earlier.highestGeneration == later.highestGeneration ==> earlier.manifestSha256 == later.manifestSha256)
  }

  /**
   A manifest is accepted exactly when it meets the caller's minimum and follows the stored
   state under the same root, and replaces that state exactly when its generation is higher.
   */
  lemma {:induction false} EvaluateAcceptsFollowers(
      m: VerifiedManifest, stored: Option<ManifestState>, minimum: int, at: int)
    ensures Evaluate(m, stored, minimum).Ok? <==>
            && minimum >= 1 && m.generation >= minimum
            && (stored.Some? ==>
                  && m.rootKeyId == stored.value.rootKeyId && m.rootFingerprint == stored.value.rootFingerprint
                  && GenerationFollows(stored.value, BuildManifestState(m, at)))
    ensures Evaluate(m, stored, minimum).Ok? ==>
              && minimum <= Evaluate(m, stored, minimum).value.0 <= m.generation
              && (stored.Some? ==> Evaluate(m, stored, minimum).value.0 >= stored.value.highestGeneration)
              && (Evaluate(m, stored, minimum).value.1
                  <==> stored.None? || stored.value.highestGeneration < m.generation)
  {
  }

  lemma {:induction false} EffectKeepsGeneration(k: Scheme, digest: Manifest -> Digest, files: Files, op: Op)
    requires files.manifest.Some? && Succeeds(k, digest, files, op) && !op.RetireOp?
    ensures Effect(k, digest, files, op).value.manifest.Some?
    ensures GenerationFollows(files.manifest.value, Effect(k, digest, files, op).value.manifest.value)
  {
    hide VerifyRootTransition, VerifyManifest;
  }

  /** Between retirements the generation never drops and one generation never has two digests. */
  lemma {:induction false} GenerationNeverDrops(
    k: Scheme, digest: Manifest -> Digest, start: Files, ops: seq<Op>, i: nat, j: nat)
    requires i <= j <= |ops| && NoRetirement(k, digest, start, ops, i, j)
    requires After(k, digest, start, ops, i).manifest.Some?
    ensures After(k, digest, start, ops, j).manifest.Some?
    ensures GenerationFollows(After(k, digest, start, ops, i).manifest.value,
            After(k, digest, start, ops, j).manifest.value)
    decreases j - i
  {
    hide Effect;
    if i < j {
      GenerationNeverDrops(k, digest, start, ops, i, j - 1);
      var before := After(k, digest, start, ops, j - 1);
      if Succeeds(k, digest, before, ops[j - 1]) {
        EffectKeepsGeneration(k, digest, before, ops[j - 1]);
      }
    }
  }

  lemma {:induction false} RetiredGrows(
      k: Scheme, digest: Manifest -> Digest, start: Files, ops: seq<Op>, i: nat, j: nat)
    requires i <= j <= |ops|
    ensures After(k, digest, start, ops, i).retired <= After(k, digest, start, ops, j).retired
    decreases j - i
  {
    hide VerifyRootTransition, VerifyManifest;
    if i < j {
      RetiredGrows(k, digest, start, ops, i, j - 1);
    }
  }

  /** Each root epoch sees at most one retirement. */
  lemma {:induction false} OneRetirementPerEpoch(
    k: Scheme, digest: Manifest -> Digest, start: Files, ops: seq<Op>, i: nat, j: nat)
    requires i < j < |ops| && ops[i].RetireOp? && ops[j].RetireOp?
    requires Succeeds(k, digest, After(k, digest, start, ops, i), ops[i])
    requires Succeeds(k, digest, After(k, digest, start, ops, j), ops[j])
    ensures After(k, digest, start, ops, i).root.Some? && After(k, digest, start, ops, j).root.Some?
    ensures After(k, digest, start, ops, i).root.value.epoch != After(k, digest, start, ops, j).root.value.epoch
  {
    hide Effect;
    RetireMarksEpoch(k, digest, After(k, digest, start, ops, i));
    RetireMarksEpoch(k, digest, After(k, digest, start, ops, j));
    RetiredGrows(k, digest, start, ops, i + 1, j);
    assert After(k, digest, start, ops, i + 1) == Effect(k, digest, After(k, digest, start, ops, i), ops[i]).value;
  }

  lemma RetireMarksEpoch(k: Scheme, digest: Manifest -> Digest, files: Files)
    requires Succeeds(k, digest, files, RetireOp)
    ensures files.root.Some? && files.root.value.epoch !in files.retired
    ensures files.root.value.epoch in Effect(k, digest, files, RetireOp).value.retired
  {
  }
}
