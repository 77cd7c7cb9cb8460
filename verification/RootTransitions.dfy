/**
 Root transition manifests (app/root_transition.py): one root key hands over to the next, and
 both sign the hand-over.  An Ed25519 signature is modelled by the key and the transition it
 was made with; fingerprints and digests are parameters about which nothing is assumed.
 */
module RootTransitions {
  import opened Wrappers
  import opened Hashing

  const ROOT_TRANSITION_GENERATION: nat := 1
  const MAX_CLOCK_SKEW: int := 300_000_000  // five minutes, in microseconds

  datatype KeyEntry = KeyEntry(epoch: int, keyId: string, publicKey: Key, fingerprint: Digest)

  datatype Transition = Transition(
    issuedAt: int, validFrom: int, validUntil: int, previousRoot: KeyEntry, nextRoot: KeyEntry)

  datatype Scheme = Scheme(fingerprint: Key -> Digest, transitionDigest: Transition -> Digest)

  datatype SignerRole = PreviousRoot | NextRoot

  datatype TransitionSignature = TransitionSignature(
    role: SignerRole, signerEpoch: int, signerKeyId: string, signerFingerprint: Digest, signedAt: int,
    transitionSha256: Digest, filename: string, signedWith: Key, message: Transition)

  /** The three files of one transition. */
  datatype TransitionFiles = TransitionFiles(
    filename: string, transition: Transition, previousSignature: TransitionSignature,
        nextSignature: TransitionSignature)

  datatype RootKey = RootKey(keyId: string, publicKey: Key, fingerprint: Digest)

  datatype TransitionResult = TransitionResult(transition: Transition, transitionSha256: Digest, isActive: bool)

  datatype RootError =
    | StateExists | StateMissing | ManifestStatePresent | TransitionInvalid | MetadataMismatch | DigestMismatch
    | SignatureRejected | FromFuture | Expired | NotYetValid | WrongEpoch

  predicate ValidKeyEntry(k: Scheme, e: KeyEntry) {
    e.epoch >= 1 && e.fingerprint == k.fingerprint(e.publicKey)
  }

  /** The payload validators, _validate_transition among them. */
  predicate ValidTransition(k: Scheme, t: Transition) {
    && ValidKeyEntry(k, t.previousRoot) && ValidKeyEntry(k, t.nextRoot)
    && t.nextRoot.epoch == t.previousRoot.epoch + 1
    && t.previousRoot.keyId != t.nextRoot.keyId
    && t.previousRoot.publicKey != t.nextRoot.publicKey
    && t.previousRoot.fingerprint != t.nextRoot.fingerprint
    && t.validUntil > t.validFrom
    && t.issuedAt <= t.validUntil
  }

  /** _ensure_current_root_matches_transition */
  predicate CurrentRootMatches(t: Transition, current: RootKey, epoch: int) {
    && t.previousRoot.epoch == epoch && t.previousRoot.keyId == current.keyId
    && t.previousRoot.fingerprint == current.fingerprint
    && t.previousRoot.publicKey == current.publicKey
  }

  /** _validate_signature_payload */
  function CheckSignaturePayload(
    k: Scheme, s: TransitionSignature, f: TransitionFiles, entry: KeyEntry, role: SignerRole
  ): Option<RootError> {
    if s.role != role || s.signerEpoch != entry.epoch || s.signerKeyId != entry.keyId then Some(MetadataMismatch)
    else if s.signerFingerprint != entry.fingerprint || s.filename != f.filename then Some(MetadataMismatch)
    else if s.transitionSha256 != k.transitionDigest(f.transition) then Some(DigestMismatch)
    else None
  }

  predicate SignedBy(s: TransitionSignature, key: Key, t: Transition) {
    s.signedWith == key && s.message == t
  }

  /** verify_root_transition */
  function VerifyRootTransition(
    k: Scheme, f: TransitionFiles, current: RootKey, epoch: int, time: int
  ): Result<TransitionResult, RootError> {
    var t := f.transition;
    if !ValidTransition(k, t) then Err(TransitionInvalid)
    else if !CurrentRootMatches(t, current, epoch) then Err(MetadataMismatch)
    else
      match CheckSignaturePayload(k, f.previousSignature, f, t.previousRoot, PreviousRoot)
      case Some(error) => Err(error)
      case None =>
        match CheckSignaturePayload(k, f.nextSignature, f, t.nextRoot, NextRoot)
        case Some(error) => Err(error)
        case None =>
          if !SignedBy(f.previousSignature, current.publicKey, t) then Err(SignatureRejected)
          else if !SignedBy(f.nextSignature, t.nextRoot.publicKey, t) then Err(SignatureRejected)
          else if t.issuedAt > time + MAX_CLOCK_SKEW then Err(FromFuture)
          else if f.previousSignature.signedAt > time + MAX_CLOCK_SKEW
                  || f.nextSignature.signedAt > time + MAX_CLOCK_SKEW then Err(FromFuture)
          else if time >= t.validUntil then Err(Expired)
          else Ok(TransitionResult(t, k.transitionDigest(t), t.validFrom <= time < t.validUntil))
  }
}
