/**
 The two files of a transparency log and the loops over them: verification reads the log
 line by line into an index, a hash list and counters; registration appends one line and
 replaces the state.
 */
module TransparencyLogFiles {
  import opened Wrappers
  import opened Hashing
  import opened TransparencyLog

  datatype LogVerification = LogVerification(
    entryCount: nat, firstSequence: Option<int>, lastSequence: Option<int>, lastEntryHash: Option<Digest>,
    rootTransitionCount: nat, signingKeyManifestCount: nat,
    entriesByIdentifier: map<string, Inclusion>, entryHashes: seq<Digest>)

  predicate HashesOf(hashes: seq<Digest>, es: seq<Entry>) {
    |hashes| == |es| && forall i | 0 <= i < |es| :: hashes[i] == es[i].entryHash
  }

  /** The index has exactly the identifiers of the entries, each with its own entry. */
  ghost predicate Indexes(index: map<string, Inclusion>, es: seq<Entry>) {
    && (forall i | 0 <= i < |es| ::
          es[i].unsigned.artifactIdentifier in index
          && index[es[i].unsigned.artifactIdentifier] == InclusionOf(es[i]))
    && (forall id :: id in index ==> HasIdentifier(es, id))
    && |index| == |es|
  }

  ghost function RootTransitions(es: seq<Entry>): set<int> {
    set i | 0 <= i < |es| && es[i].unsigned.artifactType.RootTransition?
  }

  /** A verification result that says what a verified log contains. */
  ghost predicate Describes(v: LogVerification, es: seq<Entry>) {
    && v.entryCount == |es|
    && v.firstSequence == (if es == [] then None else Some(1))
    && v.lastSequence == (if es == [] then None else Some(|es|))
    && v.lastEntryHash == TipHash(es)
    && v.rootTransitionCount == |RootTransitions(es)|
    && v.rootTransitionCount + v.signingKeyManifestCount == |es|
    && Indexes(v.entriesByIdentifier, es)
    && HashesOf(v.entryHashes, es)
  }

  lemma {:induction false} RootTransitionsSnoc(es: seq<Entry>, e: Entry)
    ensures |RootTransitions(es + [e])| == |RootTransitions(es)| + if e.unsigned.artifactType.RootTransition? then 1
            else 0
  {
    if e.unsigned.artifactType.RootTransition? {
      assert RootTransitions(es + [e]) == RootTransitions(es) + {|es|};
    } else {
      assert RootTransitions(es + [e]) == RootTransitions(es);
    }
  }

  lemma {:induction false} IndexesSnoc(index: map<string, Inclusion>, es: seq<Entry>, e: Entry)
    requires Indexes(index, es) && !HasIdentifier(es, e.unsigned.artifactIdentifier)
    ensures e.unsigned.artifactIdentifier !in index
    ensures Indexes(index[e.unsigned.artifactIdentifier := InclusionOf(e)], es + [e])
  {
    var id := e.unsigned.artifactIdentifier;
    var next, all := index[id := InclusionOf(e)], es + [e];
    assert all[|es|] == e;
    forall key | key in next ensures HasIdentifier(all, key) {
      if key != id {
        var i :| 0 <= i < |es| && es[i].unsigned.artifactIdentifier == key;
        assert all[i] == es[i];
      }
    }
  }

  lemma {:induction false} IndexMembership(index: map<string, Inclusion>, es: seq<Entry>, id: string)
    requires Indexes(index, es)
    ensures id in index <==> HasIdentifier(es, id)
    ensures (if id in index then Some(index[id]) else None)
            == match FindEntry(es, id) case None => None case Some(e) => Some(InclusionOf(e))
  {
    if HasIdentifier(es, id) {
      var e := FindEntry(es, id).value;
      var i :| 0 <= i < |es| && es[i] == e;
    }
  }

  lemma {:induction false} ScanTurn(h: Hasher, c: Codec, rest: Bytes, es: seq<Entry>)
    requires rest != []
    ensures var end := LineEnd(rest);
            Scan(h, c, RawLines(rest), es) ==
            match CheckLine(h, c, rest[..end], es)
            case Err(error) => Err(error)
            case Ok(e) => Scan(h, c, RawLines(rest[end..]), es + [e])
  {
    hide CheckLine, LineEnd;
    var end := LineEnd(rest);
    assert RawLines(rest) == [rest[..end]] + RawLines(rest[end..]);
  }

  lemma NothingRead(h: Hasher, c: Codec, es: seq<Entry>)
    ensures Indexes(map[], []) && HashesOf([], []) && |RootTransitions([])| == 0
    ensures Scan(h, c, RawLines([]), es) == Ok(es)
  {
  }

  /** _verify_transparency_log_unlocked */
  method VerifyUnlocked(h: Hasher, c: Codec, file: Option<Bytes>, state: Option<TipState>)
    returns (r: Result<LogVerification, LogError>)
    ensures match VerifyLog(h, c, file, state)
            case Err(error) => r == Err(error)
            case Ok(es) => r.Ok? && Describes(r.value, es)
  {
    hide Scan, RawLines, LineEnd, Indexes, RootTransitions, WellFormedArtifact, HasIdentifier;
    NothingRead(h, c, []);
    if file.None? {
      if state.Some? { return Err(Divergence); }
      return Ok(LogVerification(0, None, None, None, 0, 0, map[], []));
    }
    if state.None? { return Err(Divergence); }
    if |file.value| > MAX_LOG_BYTES { return Err(Invalid); }
    var entries: map<string, Inclusion>, entryHashes: seq<Digest>, previousHash: Option<Digest> := map[], [], None;
    var rootCount, manifestCount, sequence := 0, 0, 0;
    var rest := file.value;
    ghost var es: seq<Entry> := [];
    ghost var goal := Scan(h, c, RawLines(rest), []);
    while rest != []
      invariant Scan(h, c, RawLines(rest), es) == goal
      invariant sequence == |es| && previousHash == TipHash(es)
      invariant rootCount == |RootTransitions(es)| && rootCount + manifestCount == |es|
      invariant Indexes(entries, es) && HashesOf(entryHashes, es)
      decreases |rest|
    {
      var end := LineEnd(rest);
      var rawLine := rest[..end];
      ScanTurn(h, c, rest, es);
      if rawLine[|rawLine| - 1] != NEWLINE || IsBlank(rawLine) { return Err(Invalid); }
      if |rawLine| > MAX_ENTRY_BYTES { return Err(Invalid); }
      sequence := sequence + 1;
      if sequence > MAX_LOG_ENTRIES { return Err(Invalid); }
      var parsed := c.decode(rawLine[..|rawLine| - 1]);
      if parsed.None? { return Err(Invalid); }
      var entry := parsed.value;
      if entry.unsigned.sequence != sequence { return Err(Invalid); }
      if sequence == 1 && entry.unsigned.previousEntryHash.Some? { return Err(Invalid); }
      if sequence > 1 && entry.unsigned.previousEntryHash != previousHash { return Err(Invalid); }
      if entry.entryHash != EntryHash(h, c, entry.unsigned) { return Err(Invalid); }
      IndexMembership(entries, es, entry.unsigned.artifactIdentifier);
      if entry.unsigned.artifactIdentifier in entries { return Err(Conflict); }
      assert CheckLine(h, c, rawLine, es) == Ok(entry);
      IndexesSnoc(entries, es, entry);
      RootTransitionsSnoc(es, entry);
      entries := entries[entry.unsigned.artifactIdentifier := InclusionOf(entry)];
      entryHashes := entryHashes + [entry.entryHash];
      if entry.unsigned.artifactType.RootTransition? {
        rootCount := rootCount + 1;
      } else {
        manifestCount := manifestCount + 1;
      }
      previousHash := Some(entry.entryHash);
      es := es + [entry];
      rest := rest[end..];
    }
    NothingRead(h, c, es);
    if sequence == 0 { return Err(Divergence); }
    if state.value.lastSequence != sequence
        || Some(state.value.lastEntryHash) != previousHash { return Err(StateMismatch); }
    return Ok(LogVerification(sequence, Some(1), Some(sequence), previousHash, rootCount, manifestCount, entries,
        entryHashes));
  }

  /** require_transparency_entry */
  function RequireTransparencyEntry(v: LogVerification, a: Artifact): Result<Inclusion, LogError> {
    RequireInclusion(
      if a.artifactIdentifier in v.entriesByIdentifier then Some(v.entriesByIdentifier[a.artifactIdentifier])
          else None, a)
  }

  lemma {:induction false} RequireAgrees(v: LogVerification, es: seq<Entry>, a: Artifact)
    requires Describes(v, es)
    ensures RequireTransparencyEntry(v, a) == RequireEntry(es, a)
  {
    IndexMembership(v.entriesByIdentifier, es, a.artifactIdentifier);
  }

  class LogFiles {
    const hasher: Hasher
    const codec: Codec
    var file: Option<Bytes>
    var state: Option<TipState>

    constructor (hasher: Hasher, codec: Codec)
      ensures this.hasher == hasher && this.codec == codec && file == None && state == None
    {
      this.hasher, this.codec := hasher, codec;
      file, state := None, None;
    }

    /** register_verified_artifact, uninterrupted: the plain effect on both files, nothing else. */
    method Register(a: Artifact, recordedAt: int) returns (r: Result<AppendResult, LogError>)
      requires ValidCodec(codec)
      modifies this
      ensures Effect(r, file, state) == RegisterEffect(hasher, codec, old(file), old(state), a, recordedAt)
    {
      hide VerifyLog, ValidCodec, WellFormedEntry, Indexes;
      ghost var log := VerifyLog(hasher, codec, file, state);
      var before := VerifyUnlocked(hasher, codec, file, state);
      if before.Err? { return Err(before.error); }
      var verification := before.value;
      ghost var es := log.value;
      IndexMembership(verification.entriesByIdentifier, es, a.artifactIdentifier);
      if a.artifactIdentifier in verification.entriesByIdentifier {
        RequireAgrees(verification, es, a);
        var found := RequireTransparencyEntry(verification, a);
        match found {
          case Err(error) => return Err(error);
          case Ok(inclusion) => return Ok(AppendResult(inclusion, false));
        }
      }
      if verification.entryCount >= MAX_LOG_ENTRIES { return Err(Invalid); }
      var unsigned := UnsignedEntry(
        verification.entryCount + 1, recordedAt, a.artifactType, a.artifactVersion, a.artifactIdentifier,
        a.artifactSha256, verification.lastEntryHash, a.metadata);
      assert unsigned == NextUnsigned(es, a, recordedAt);
      if !WellFormedEntry(unsigned) { return Err(Invalid); }
      var entry := Entry(unsigned, EntryHash(hasher, codec, unsigned));
      var line := codec.encode(entry) + [NEWLINE];
      if |line| > MAX_ENTRY_BYTES { return Err(Invalid); }
      var contents := Contents(file);
      if |contents| + |line| > MAX_LOG_BYTES { return Err(Invalid); }
      AppendVerifies(hasher, codec, file, state, a, recordedAt);
      file := Some(contents + line);
      state := Some(TipOf(entry, recordedAt));
      var after := VerifyUnlocked(hasher, codec, file, state);
      FindNewest(es, entry);
      RequireAgrees(after.value, es + [entry], a);
      var found := RequireTransparencyEntry(after.value, a);
      return Ok(AppendResult(found.value, true));
    }
  }
}
