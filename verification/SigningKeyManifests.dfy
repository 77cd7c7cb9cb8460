/** Signing key manifests (app/signing_key_manifest.py): the keys a root currently vouches for. */
module SigningKeyManifests {
  import opened Wrappers
  import opened Hashing
  import RootTransitions

  datatype KeyStatus = Active | VerifyOnly | Revoked

  datatype ManifestKey = ManifestKey(keyId: string, publicKey: Key, fingerprint: Digest, status: KeyStatus)

  datatype Manifest = Manifest(
    generation: int, issuedAt: int, validFrom: int, validUntil: int,
    issuerKeyId: string, issuerFingerprint: Digest, keys: seq<ManifestKey>)

  datatype ManifestSignature = ManifestSignature(
    rootKeyId: string, rootFingerprint: Digest, generation: int, signedAt: int, manifestSha256: Digest,
    filename: string, signedWith: Key, message: Manifest)

  datatype ManifestFiles = ManifestFiles(filename: string, manifest: Manifest, signature: ManifestSignature)

  datatype VerifiedManifest = VerifiedManifest(
    generation: int, issuedAt: int, rootKeyId: string, rootFingerprint: Digest, activeKeyId: string,
    keyCount: nat, manifestSha256: Digest)

  datatype ManifestError =
    | Invalid | MetadataMismatch | DigestMismatch | SignatureRejected | FromFuture | NotYetValid | Expired | Rollback
    | StateMissing | RootMismatch | GenerationConflict | RetirementFailed

  predicate Clash(a: ManifestKey, b: ManifestKey) {
    a.keyId == b.keyId || a.fingerprint == b.fingerprint || a.publicKey == b.publicKey
  }

  predicate DistinctKeys(keys: seq<ManifestKey>) {
    forall i, j | 0 <= i < j < |keys| :: !Clash(keys[i], keys[j])
  }

  /** Exactly one key is active, and it is the one at index i. */
  predicate OnlyActive(keys: seq<ManifestKey>, i: nat) {
    i < |keys| && forall j | 0 <= j < |keys| :: keys[j].status.Active? <==> j == i
  }

  predicate ValidManifest(m: Manifest) {
    && m.generation >= 1
    && m.validUntil > m.validFrom && m.issuedAt <= m.validUntil
    && DistinctKeys(m.keys)
    && exists i | 0 <= i < |m.keys| :: OnlyActive(m.keys, i)
  }

  /** Distinct ids, fingerprints and public keys, and exactly one active key. */
  predicate UsableKeys(keys: seq<ManifestKey>) {
    && (forall i, j | 0 <= i < |keys| && 0 <= j < |keys| && i != j ::
          && keys[i].keyId != keys[j].keyId && keys[i].fingerprint != keys[j].fingerprint
          && keys[i].publicKey != keys[j].publicKey)
    && (exists i | 0 <= i < |keys| :: keys[i].status == Active)
    && (forall i, j | 0 <= i < |keys| && 0 <= j < |keys| && i != j ::
          keys[i].status != Active || keys[j].status != Active)
  }

  lemma {:induction false} ValidManifestMeans(m: Manifest)
    ensures ValidManifest(m) <==>
            && m.generation >= 1 && m.validFrom < m.validUntil && m.issuedAt <= m.validUntil && UsableKeys(m.keys)
  {
    var keys := m.keys;
    if UsableKeys(keys) {
      var i :| 0 <= i < |keys| && keys[i].status == Active;
      assert OnlyActive(keys, i);
    }
    if DistinctKeys(keys) {
      forall i, j | 0 <= i < |keys| && 0 <= j < |keys| && i != j ensures !Clash(keys[i], keys[j]) {
        assert !Clash(keys[if i < j then i else j], keys[if i < j then j else i]);
      }
      if i :| 0 <= i < |keys| && OnlyActive(keys, i) {
        assert keys[i].status == Active;
        assert UsableKeys(keys);
      }
    }
  }

  function ActiveCount(keys: seq<ManifestKey>): nat {
    if keys == [] then 0
    else ActiveCount(keys[..|keys| - 1]) + if keys[|keys| - 1].status.Active? then 1 else 0
  }

  lemma {:induction false} NoneActive(keys: seq<ManifestKey>)
    ensures ActiveCount(keys) == 0 <==> forall i | 0 <= i < |keys| :: !keys[i].status.Active?
  {
    if keys != [] {
      var last := |keys| - 1;
      NoneActive(keys[..last]);
      assert forall i | 0 <= i < last :: keys[..last][i] == keys[i];
    }
  }

  lemma {:induction false} OneActive(keys: seq<ManifestKey>)
    ensures ActiveCount(keys) == 1 <==> exists i | 0 <= i < |keys| :: OnlyActive(keys, i)
  {
    if keys != [] {
      var last := |keys| - 1;
      var rest := keys[..last];
      assert forall i | 0 <= i < last :: rest[i] == keys[i];
      if keys[last].status.Active? {
        NoneActive(rest);
        assert ActiveCount(keys) == 1 <==> OnlyActive(keys, last);
      } else {
        OneActive(rest);
        assert forall i | 0 <= i < last :: OnlyActive(keys, i) <==> OnlyActive(rest, i);
      }
    }
  }

  lemma {:induction false} DistinctKeysStep(keys: seq<ManifestKey>, n: nat)
    requires n < |keys|
    ensures DistinctKeys(keys[..n + 1]) <==> DistinctKeys(keys[..n]) && forall i | 0 <= i < n ::
            !Clash(keys[i], keys[n])
  {
    hide Clash;
    var a, b := keys[..n], keys[..n + 1];
    if DistinctKeys(b) {
      forall i | 0 <= i < n ensures !Clash(keys[i], keys[n]) { assert b[i] == keys[i] && b[n] == keys[n]; }
      forall i, j | 0 <= i < j < n ensures !Clash(a[i], a[j]) { assert b[i] == a[i] && b[j] == a[j]; }
    }
  }

  lemma DistinctKeysPrefix(keys: seq<ManifestKey>, n: nat)
    requires n <= |keys| && DistinctKeys(keys)
    ensures DistinctKeys(keys[..n])
  {
    hide Clash;
    forall i, j | 0 <= i < j < n ensures !Clash(keys[..n][i], keys[..n][j]) {
      assert keys[..n][i] == keys[i] && keys[..n][j] == keys[j];
    }
  }

  datatype Seen = Seen(keyIds: set<string>, fingerprints: set<Digest>, publicKeys: set<Key>)

  /** The three sets hold what the first n keys use. */
  ghost predicate Collected(seen: Seen, keys: seq<ManifestKey>, n: nat)
    requires n <= |keys|
  {
    && seen.keyIds == (set i | 0 <= i < n :: keys[i].keyId)
    && seen.fingerprints == (set i | 0 <= i < n :: keys[i].fingerprint)
    && seen.publicKeys == (set i | 0 <= i < n :: keys[i].publicKey)
  }

  lemma CollectedClash(seen: Seen, keys: seq<ManifestKey>, n: nat)
    requires n < |keys| && Collected(seen, keys, n)
    ensures keys[n].keyId in seen.keyIds || keys[n].fingerprint in seen.fingerprints
            || keys[n].publicKey in seen.publicKeys
            <==> exists i | 0 <= i < n :: Clash(keys[i], keys[n])
    ensures Collected(Seen(seen.keyIds + {keys[n].keyId}, seen.fingerprints + {keys[n].fingerprint},
                           seen.publicKeys + {keys[n].publicKey}), keys, n + 1)
  {
  }

  /** _validate_manifest */
  method ValidateManifest(m: Manifest) returns (ok: bool)
    ensures ok <==> ValidManifest(m)
  {
    hide DistinctKeys, OnlyActive, Clash, Collected;
    if m.generation < 1 { return false; }
    if m.validUntil <= m.validFrom || m.issuedAt > m.validUntil { return false; }
    var keyIds: set<string>, fingerprints: set<Digest>, publicKeys: set<Key>, activeCount := {}, {}, {}, 0;
    NothingCollected(m.keys);
    for n := 0 to |m.keys|
      invariant DistinctKeys(m.keys[..n])
      invariant Collected(Seen(keyIds, fingerprints, publicKeys), m.keys, n)
      invariant activeCount == ActiveCount(m.keys[..n])
    {
      var key := m.keys[n];
      DistinctKeysStep(m.keys, n);
      CollectedClash(Seen(keyIds, fingerprints, publicKeys), m.keys, n);
      if key.keyId in keyIds || key.fingerprint in fingerprints || key.publicKey in publicKeys {
        if DistinctKeys(m.keys) { DistinctKeysPrefix(m.keys, n + 1); }
        return false;
      }
      keyIds, fingerprints, publicKeys := keyIds + {key.keyId}, fingerprints + {key.fingerprint}, publicKeys
          + {key.publicKey};
      assert m.keys[..n + 1][..n] == m.keys[..n];
      if key.status.Active? {
        activeCount := activeCount + 1;
      }
    }
    assert m.keys[..|m.keys|] == m.keys;
    OneActive(m.keys);
    return activeCount == 1;
  }

  lemma NothingCollected(keys: seq<ManifestKey>)
    ensures DistinctKeys(keys[..0]) && Collected(Seen({}, {}, {}), keys, 0)
  {
  }

  function ActiveKeyId(keys: seq<ManifestKey>): string {
    if keys == [] then "" else if keys[0].status.Active? then keys[0].keyId else ActiveKeyId(keys[1..])
  }

  /** verify_signing_key_manifest against one root key. */
  function VerifyManifest(
    digest: Manifest -> Digest, f: ManifestFiles, root: RootTransitions.RootKey, time: int, minimumGeneration: int
  ): Result<VerifiedManifest, ManifestError> {
    var m, s := f.manifest, f.signature;
    if minimumGeneration < 1 || !ValidManifest(m) then Err(Invalid)
    else if m.issuerKeyId != root.keyId || m.issuerFingerprint != root.fingerprint then Err(MetadataMismatch)
    else if s.manifestSha256 != digest(m) then Err(DigestMismatch)
    else if || s.rootKeyId != root.keyId || s.rootFingerprint != root.fingerprint
            || s.generation != m.generation || s.filename != f.filename then Err(MetadataMismatch)
    else if s.signedWith != root.publicKey || s.message != m then Err(SignatureRejected)
    else if m.issuedAt > time + RootTransitions.MAX_CLOCK_SKEW || s.signedAt > time + RootTransitions.MAX_CLOCK_SKEW
        then Err(FromFuture)
    else if time < m.validFrom then Err(NotYetValid)
    else if time >= m.validUntil then Err(Expired)
    else if m.generation < minimumGeneration then Err(Rollback)
    else Ok(VerifiedManifest(m.generation, m.issuedAt, root.keyId, root.fingerprint, ActiveKeyId(m.keys), |m.keys|,
        digest(m)))
  }
}
