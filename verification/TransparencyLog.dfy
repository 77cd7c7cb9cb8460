/**
 The append-only log of app/transparency_log.py with its tip state
 (app/transparency_log_state.py): a file of one JSON line per entry, every entry carrying
 the hash of the one before it, and a small state file that names the last entry.
 Files are byte sequences; JSON is a pair of functions assumed to round-trip.
 */
module TransparencyLog {
  import opened Wrappers
  import opened Hashing
  import opened Identifiers

  type Bytes = string  // one character per byte

  const MAX_LOG_BYTES: nat := 20 * 1024 * 1024
  const MAX_LOG_ENTRIES: nat := 100_000
  const MAX_ENTRY_BYTES: nat := 64 * 1024
  const NEWLINE: char := '\n'
  const WHITESPACE: string := " \t\n\r\U{0B}\U{0C}"  // what bytes.strip() removes

  // ---------------------------------------------------------------- entries

  datatype ArtifactType = RootTransition | SigningKeyManifest

  datatype Metadata =
    | RootTransitionMetadata(
        previousRootEpoch: nat, previousRootKeyId: string, previousRootFingerprint: Digest,
        nextRootEpoch: nat, nextRootKeyId: string, nextRootFingerprint: Digest,
        transitionGeneration: nat, transitionTimes: seq<int>)
    | SigningKeyManifestMetadata(
        rootKeyId: string, rootFingerprint: Digest, manifestGeneration: nat,
        manifestTimes: seq<int>, activeSigningKeyId: string, keyCount: nat)

  datatype UnsignedEntry = UnsignedEntry(
    sequence: int, recordedAt: int, artifactType: ArtifactType, artifactVersion: int,
    artifactIdentifier: string, artifactSha256: Digest, previousEntryHash: Option<Digest>, metadata: Metadata)

  datatype Entry = Entry(unsigned: UnsignedEntry, entryHash: Digest)

  datatype Artifact = Artifact(
    artifactType: ArtifactType, artifactVersion: int, artifactIdentifier: string, artifactSha256: Digest,
        metadata: Metadata)

  datatype Inclusion = Inclusion(
    sequence: int, entryHash: Digest, recordedAt: int,
    artifactType: ArtifactType, artifactIdentifier: string, artifactSha256: Digest)

  datatype TipState = TipState(
    lastSequence: int, lastEntryHash: Digest, lastArtifactType: ArtifactType, lastArtifactIdentifier: string,
        updatedAt: int)

  datatype LogError =
    | Invalid | Conflict | Divergence | StateMismatch
    | UnloggedRootTransition | UnloggedManifest | RootTransitionConflict | ManifestConflict

  function ExpectedIdentifier(m: Metadata): string {
    match m
    case RootTransitionMetadata(p, _, _, n, _, _, g, _) => RootTransitionIdentifier(p, n, g)
    case SigningKeyManifestMetadata(_, r, g, _, _, _) => SigningKeyManifestIdentifier(r, g)
  }

  /** The payload validators: numbers at least 1, metadata of the stated type, identifier derived from it. */
  predicate WellFormedArtifact(a: Artifact) {
    && a.artifactVersion >= 1
    && 1 <= |a.artifactIdentifier| <= 512
    && a.artifactIdentifier == ExpectedIdentifier(a.metadata)
    && match a.metadata
       case RootTransitionMetadata(p, _, _, n, _, _, g, _) => a.artifactType.RootTransition? && p >= 1 && n >= 1
           && g >= 1
       case SigningKeyManifestMetadata(_, _, g, _, _, k) => a.artifactType.SigningKeyManifest? && g >= 1 && k >= 1
  }

  function ArtifactOf(u: UnsignedEntry): Artifact {
    Artifact(u.artifactType, u.artifactVersion, u.artifactIdentifier, u.artifactSha256, u.metadata)
  }

  predicate WellFormedEntry(u: UnsignedEntry) {
    u.sequence >= 1 && WellFormedArtifact(ArtifactOf(u))
  }

  function InclusionOf(e: Entry): Inclusion {
    Inclusion(e.unsigned.sequence, e.entryHash, e.unsigned.recordedAt, e.unsigned.artifactType,
              e.unsigned.artifactIdentifier, e.unsigned.artifactSha256)
  }

  // ---------------------------------------------------------------- JSON

  datatype Codec = Codec(
    canonical: UnsignedEntry -> string,  // sorted keys, the bytes that are hashed
    encode: Entry -> Bytes,              // one log line without its newline
    decode: Bytes -> Option<Entry>)      // strict parse with the payload validators

  predicate IsBlank(b: Bytes) {
    forall i | 0 <= i < |b| :: b[i] in WHITESPACE
  }

  ghost predicate ValidCodec(c: Codec) {
    && (forall u, v :: c.canonical(u) == c.canonical(v) ==> u == v)
    && (forall e: Entry :: NEWLINE !in c.encode(e) && !IsBlank(c.encode(e)))
    && (forall e: Entry :: WellFormedEntry(e.unsigned) ==> c.decode(c.encode(e)) == Some(e))
    && (forall b :: c.decode(b).Some? ==> WellFormedEntry(c.decode(b).value.unsigned))
  }

  function EntryHash(h: Hasher, c: Codec, u: UnsignedEntry): Digest {
    h.of(EntryInput(c.canonical(u)))
  }

  // ---------------------------------------------------------------- lines of a file

  /** Where the first line of a non-empty file ends, its newline included. */
  function LineEnd(b: Bytes): (end: nat)
    requires b != []
    ensures 1 <= end <= |b|
    ensures forall i | 0 <= i < end - 1 :: b[i] != NEWLINE
    ensures end < |b| ==> b[end - 1] == NEWLINE
  {
    if b[0] == NEWLINE || |b| == 1 then 1 else 1 + LineEnd(b[1..])
  }

  function RawLines(b: Bytes): seq<Bytes> {
    if b == [] then [] else [b[..LineEnd(b)]] + RawLines(b[LineEnd(b)..])
  }

  predicate EndsLine(b: Bytes) {
    b == [] || b[|b| - 1] == NEWLINE
  }

  lemma {:induction false} LineEndOf(b: Bytes, end: nat)
    requires 1 <= end <= |b|
    requires forall i | 0 <= i < end - 1 :: b[i] != NEWLINE
    requires end < |b| ==> b[end - 1] == NEWLINE
    ensures LineEnd(b) == end
  {
  }

  lemma RawLinesStep(b: Bytes)
    requires b != []
    ensures RawLines(b) == [b[..LineEnd(b)]] + RawLines(b[LineEnd(b)..])
    ensures LineEnd(b) == |b| ==> RawLines(b[LineEnd(b)..]) == []
  {
    hide LineEnd;
  }

  lemma RawLinesOfNothing()
    ensures RawLines([]) == []
  {
  }

  /** Appending to a file of whole lines leaves those lines as they were. */
  lemma {:induction false} RawLinesAppend(a: Bytes, b: Bytes)
    requires EndsLine(a)
    ensures RawLines(a + b) == RawLines(a) + RawLines(b)
    decreases |a|
  {
    hide LineEnd, RawLines;
    if a == [] {
      RawLinesOfNothing();
      assert a + b == b;
    } else {
      var end := LineEnd(a);
      LineEndOf(a + b, end);
      RawLinesStep(a);
      RawLinesStep(a + b);
      assert (a + b)[..end] == a[..end] && (a + b)[end..] == a[end..] + b;
      RawLinesAppend(a[end..], b);
    }
  }

  lemma {:induction false} RawLinesOfOne(b: Bytes)
    requires b != [] && forall i | 0 <= i < |b| - 1 :: b[i] != NEWLINE
    ensures RawLines(b) == [b]
  {
    LineEndOf(b, |b|);
    assert b[..|b|] == b && b[|b|..] == [];
  }

  // The last raw line ends with a newline exactly when the file does.
  lemma {:induction false} LastRawLine(b: Bytes)
    requires b != []
    ensures RawLines(b) != []
    ensures var last := RawLines(b)[|RawLines(b)| - 1]; last != [] && last[|last| - 1] == b[|b| - 1]
    decreases |b|
  {
    hide LineEnd, RawLines;
    var end := LineEnd(b);
    RawLinesStep(b);
    if end < |b| {
      LastRawLine(b[end..]);
    } else {
      assert b[..end] == b;
    }
  }

  // ---------------------------------------------------------------- verification

  predicate HasIdentifier(es: seq<Entry>, id: string) {
    exists i | 0 <= i < |es| :: es[i].unsigned.artifactIdentifier == id
  }

  function TipHash(es: seq<Entry>): Option<Digest> {
    if es == [] then None else Some(es[|es| - 1].entryHash)
  }

  /** One turn of the verification loop: the next raw line after the entries already read. */
  function CheckLine(h: Hasher, c: Codec, raw: Bytes, es: seq<Entry>): Result<Entry, LogError> {
    if raw == [] || raw[|raw| - 1] != NEWLINE || IsBlank(raw) then Err(Invalid)
    else if |raw| > MAX_ENTRY_BYTES then Err(Invalid)
    else if |es| + 1 > MAX_LOG_ENTRIES then Err(Invalid)
    else
      match c.decode(raw[..|raw| - 1])
      case None => Err(Invalid)
      case Some(e) =>
        if e.unsigned.sequence != |es| + 1 then Err(Invalid)
        else if e.unsigned.previousEntryHash != TipHash(es) then Err(Invalid)
        else if e.entryHash != EntryHash(h, c, e.unsigned) then Err(Invalid)
        else if HasIdentifier(es, e.unsigned.artifactIdentifier) then Err(Conflict)
        else Ok(e)
  }

  function Scan(h: Hasher, c: Codec, lines: seq<Bytes>, es: seq<Entry>): Result<seq<Entry>, LogError>
    decreases |lines|
  {
    if lines == [] then Ok(es)
    else
      match CheckLine(h, c, lines[0], es)
      case Err(error) => Err(error)
      case Ok(e) => Scan(h, c, lines[1..], es + [e])
  }

  /** The entries of a log that verifies against its state, or the first error. */
  function VerifyLog(h: Hasher, c: Codec, file: Option<Bytes>, state: Option<TipState>): Result<seq<Entry>, LogError> {
    match file
    case None => if state.Some? then Err(Divergence) else Ok([])
    case Some(b) =>
      if state.None? then Err(Divergence)
      else if |b| > MAX_LOG_BYTES then Err(Invalid)
      else
        match Scan(h, c, RawLines(b), [])
        case Err(error) => Err(error)
        case Ok(es) =>
          if es == [] then Err(Divergence)
          else if state.value.lastSequence != |es| || Some(state.value.lastEntryHash) != TipHash(es)
              then Err(StateMismatch)
          else Ok(es)
  }

  // ---------------------------------------------------------------- what verified logs look like

  /** Entry i of a chain: its number, its link to the entry before and its own hash. */
  predicate Linked(h: Hasher, c: Codec, es: seq<Entry>, i: nat)
    requires i < |es|
  {
    && es[i].unsigned.sequence == i + 1
    && es[i].unsigned.previousEntryHash == TipHash(es[..i])
    && es[i].entryHash == EntryHash(h, c, es[i].unsigned)
  }

  predicate DistinctIdentifiers(es: seq<Entry>) {
    forall i, j | 0 <= i < j < |es| :: es[i].unsigned.artifactIdentifier != es[j].unsigned.artifactIdentifier
  }

  ghost predicate Chained(h: Hasher, c: Codec, es: seq<Entry>) {
    && |es| <= MAX_LOG_ENTRIES
    && (forall i | 0 <= i < |es| :: Linked(h, c, es, i) && WellFormedEntry(es[i].unsigned))
    && DistinctIdentifiers(es)
  }

  lemma {:induction false} ScanAppend(h: Hasher, c: Codec, xs: seq<Bytes>, ys: seq<Bytes>, es: seq<Entry>)
    ensures Scan(h, c, xs + ys, es) ==
            match Scan(h, c, xs, es) case Err(error) => Err(error) case Ok(fs) => Scan(h, c, ys, fs)
    decreases |xs|
  {
    hide CheckLine;
    if xs == [] {
      assert xs + ys == ys;
    } else {
      assert (xs + ys)[1..] == xs[1..] + ys;
      match CheckLine(h, c, xs[0], es)
      case Err(_) =>
      case Ok(e) => ScanAppend(h, c, xs[1..], ys, es + [e]);
    }
  }

  // A link is about the entries up to it.
  lemma LinkedSame(h: Hasher, c: Codec, es: seq<Entry>, fs: seq<Entry>, i: nat)
    requires i < |es| && i < |fs| && es[i] == fs[i] && es[..i] == fs[..i]
    ensures Linked(h, c, es, i) <==> Linked(h, c, fs, i)
  {
  }

  lemma CheckLineMeans(h: Hasher, c: Codec, raw: Bytes, es: seq<Entry>)
    requires ValidCodec(c) && CheckLine(h, c, raw, es).Ok?
    ensures var e := CheckLine(h, c, raw, es).value;
            && |es| < MAX_LOG_ENTRIES && WellFormedEntry(e.unsigned) && Linked(h, c, es + [e], |es|)
            && !HasIdentifier(es, e.unsigned.artifactIdentifier)
  {
    hide IsBlank, WellFormedEntry, HasIdentifier;
    var e := CheckLine(h, c, raw, es).value;
    assert (es + [e])[..|es|] == es;
  }

  lemma DistinctSnoc(es: seq<Entry>, e: Entry)
    requires DistinctIdentifiers(es) && !HasIdentifier(es, e.unsigned.artifactIdentifier)
    ensures DistinctIdentifiers(es + [e])
  {
  }

  lemma {:induction false} CheckLineExtends(h: Hasher, c: Codec, raw: Bytes, es: seq<Entry>)
    requires ValidCodec(c)
    requires Chained(h, c, es)
    requires CheckLine(h, c, raw, es).Ok?
    ensures Chained(h, c, es + [CheckLine(h, c, raw, es).value])
  {
    hide CheckLine, HasIdentifier, Linked, WellFormedEntry, DistinctIdentifiers;
    CheckLineMeans(h, c, raw, es);
    var e := CheckLine(h, c, raw, es).value;
    var all := es + [e];
    forall i | 0 <= i < |es| ensures Linked(h, c, all, i) && WellFormedEntry(all[i].unsigned) {
      assert Linked(h, c, es, i) && all[..i] == es[..i];
      LinkedSame(h, c, es, all, i);
    }
    DistinctSnoc(es, e);
  }

  /** Everything the loop lets through is a chain that begins with what it had read before. */
  lemma {:induction false} ScanChains(h: Hasher, c: Codec, lines: seq<Bytes>, es: seq<Entry>)
    requires ValidCodec(c)
    requires Chained(h, c, es)
    requires Scan(h, c, lines, es).Ok?
    ensures var all := Scan(h, c, lines, es).value; es <= all && |all| == |es| + |lines| && Chained(h, c, all)
    decreases |lines|
  {
    hide CheckLine, Chained;
    if lines != [] {
      CheckLineExtends(h, c, lines[0], es);
      ScanChains(h, c, lines[1..], es + [CheckLine(h, c, lines[0], es).value]);
    }
  }

  lemma {:induction false} VerifiedIsChained(h: Hasher, c: Codec, file: Option<Bytes>, state: Option<TipState>)
    requires ValidCodec(c)
    requires VerifyLog(h, c, file, state).Ok?
    ensures var es := VerifyLog(h, c, file, state).value;
            && Chained(h, c, es)
            && (file.None? ==> es == [] && state.None?)
            && (file.Some? ==> es != [] && state.Some? && state.value.lastSequence == |es|
                               && Some(state.value.lastEntryHash) == TipHash(es)
                               && |es| == |RawLines(file.value)|)
  {
    hide ValidCodec;
    if file.Some? {
      ScanChains(h, c, RawLines(file.value), []);
    }
  }

  // ---------------------------------------------------------------- the tip pins the log

  /** Line n of a log file holds entry n of the list, field by field. */
  predicate HoldsEntry(h: Hasher, c: Codec, raw: Bytes, es: seq<Entry>, n: nat)
    requires n < |es|
  {
    var u := es[n].unsigned;
    && raw != [] && raw[|raw| - 1] == NEWLINE && (exists i | 0 <= i < |raw| :: raw[i] !in WHITESPACE)
    && |raw| <= 64 * 1024
    && c.decode(raw[..|raw| - 1]) == Some(es[n])
    && u.sequence == n + 1
    && u.previousEntryHash == (if n == 0 then None else Some(es[n - 1].entryHash))
    && es[n].entryHash == h.of(EntryInput(c.canonical(u)))
    && forall i | 0 <= i < n :: es[i].unsigned.artifactIdentifier != u.artifactIdentifier
  }

  /** The lines of a file hold exactly these entries, within the limits on entries and bytes. */
  predicate FileHolds(h: Hasher, c: Codec, b: Bytes, es: seq<Entry>) {
    && |b| <= 20 * 1024 * 1024 && |es| <= 100_000
    && |RawLines(b)| == |es| && forall n | 0 <= n < |es| :: HoldsEntry(h, c, RawLines(b)[n], es, n)
  }

  lemma {:induction false} LineIsChecked(h: Hasher, c: Codec, raw: Bytes, es: seq<Entry>, n: nat)
    requires n < |es|
    ensures CheckLine(h, c, raw, es[..n]) == Ok(es[n]) <==> HoldsEntry(h, c, raw, es, n) && n < MAX_LOG_ENTRIES
  {
    var before := es[..n];
    assert forall i | 0 <= i < n :: before[i] == es[i];
  }

  lemma {:induction false} ScanDecides(h: Hasher, c: Codec, lines: seq<Bytes>, es: seq<Entry>, all: seq<Entry>)
    ensures Scan(h, c, lines, es) == Ok(all) <==>
            && es <= all && |all| == |es| + |lines|
            && forall i | 0 <= i < |lines| :: CheckLine(h, c, lines[i], all[..|es| + i]) == Ok(all[|es| + i])
    decreases |lines|
  {
    hide CheckLine;
    if lines != [] {
      var checked := CheckLine(h, c, lines[0], es);
      if checked.Ok? {
        var next := es + [checked.value];
        ScanDecides(h, c, lines[1..], next, all);
        assert next <= all ==> all[..|es|] == es && all[|es|] == checked.value;
        assert es <= all && |es| < |all| && all[|es|] == checked.value ==> next <= all;
        assert forall i | 0 <= i < |lines[1..]| :: lines[1..][i] == lines[i + 1] && |next| + i == |es| + (i + 1);
        assert es <= all ==> all[..|es| + 0] == es;
        if |all| == |es| + |lines| { ShiftChecks(h, c, lines, es, next, all); }
      } else {
        assert es <= all ==> all[..|es| + 0] == es;
      }
    } else {
      assert es <= all && |all| == |es| ==> es == all;
    }
  }

  lemma ShiftChecks(h: Hasher, c: Codec, lines: seq<Bytes>, es: seq<Entry>, next: seq<Entry>, all: seq<Entry>)
    requires lines != [] && |next| == |es| + 1 && |all| == |es| + |lines|
    ensures (forall i | 0 <= i < |lines| :: CheckLine(h, c, lines[i], all[..|es| + i]) == Ok(all[|es| + i])) <==>
            && CheckLine(h, c, lines[0], all[..|es|]) == Ok(all[|es|])
            && forall i | 0 <= i < |lines[1..]| ::
                 CheckLine(h, c, lines[1..][i], all[..|next| + i]) == Ok(all[|next| + i])
  {
    hide CheckLine;
    if forall i | 0 <= i < |lines| :: CheckLine(h, c, lines[i], all[..|es| + i]) == Ok(all[|es| + i]) {
      assert CheckLine(h, c, lines[0], all[..|es| + 0]) == Ok(all[|es| + 0]);
      forall i | 0 <= i < |lines[1..]|
        ensures CheckLine(h, c, lines[1..][i], all[..|next| + i]) == Ok(all[|next| + i])
      {
        assert CheckLine(h, c, lines[i + 1], all[..|es| + (i + 1)]) == Ok(all[|es| + (i + 1)]);
        assert |es| + (i + 1) == |next| + i;
      }
    }
    if && CheckLine(h, c, lines[0], all[..|es|]) == Ok(all[|es|])
       && forall i | 0 <= i < |lines[1..]| :: CheckLine(h, c, lines[1..][i], all[..|next| + i]) == Ok(all[|next| + i])
    {
      forall i | 0 <= i < |lines| ensures CheckLine(h, c, lines[i], all[..|es| + i]) == Ok(all[|es| + i]) {
        if i > 0 {
          assert CheckLine(h, c, lines[1..][i - 1], all[..|next| + (i - 1)]) == Ok(all[|next| + (i - 1)]);
          assert |es| + i == |next| + (i - 1);
        }
      }
    }
  }

  // All places are below the cap exactly when there are no more lines than the cap.
  lemma CountIsBounded(h: Hasher, c: Codec, lines: seq<Bytes>, es: seq<Entry>)
    requires |es| == |lines|
    ensures (forall i | 0 <= i < |lines| :: HoldsEntry(h, c, lines[i], es, i) && i < MAX_LOG_ENTRIES) <==>
            |es| <= 100_000 && forall i | 0 <= i < |lines| :: HoldsEntry(h, c, lines[i], es, i)
  {
    hide HoldsEntry;
    if lines != [] && forall i | 0 <= i < |lines| :: HoldsEntry(h, c, lines[i], es, i) && i < MAX_LOG_ENTRIES {
      var last := |lines| - 1;
      assert HoldsEntry(h, c, lines[last], es, last) && last < MAX_LOG_ENTRIES;
    }
  }

  lemma {:induction false} ScanHolds(h: Hasher, c: Codec, lines: seq<Bytes>, es: seq<Entry>)
    ensures Scan(h, c, lines, []) == Ok(es) <==>
            && |es| == |lines| <= 100_000 && forall i | 0 <= i < |lines| :: HoldsEntry(h, c, lines[i], es, i)
  {
    hide CheckLine, HoldsEntry, Scan;
    ScanDecides(h, c, lines, [], es);
    if |es| == |lines| {
      CountIsBounded(h, c, lines, es);
      forall i | 0 <= i < |lines|
        ensures CheckLine(h, c, lines[i], es[..0 + i]) == Ok(es[0 + i])
                <==> HoldsEntry(h, c, lines[i], es, i) && i < MAX_LOG_ENTRIES
      {
        LineIsChecked(h, c, lines[i], es, i);
      }
    }
  }

  lemma FileHoldsIffScanned(h: Hasher, c: Codec, b: Bytes, es: seq<Entry>)
    ensures FileHolds(h, c, b, es) <==> |b| <= MAX_LOG_BYTES && Scan(h, c, RawLines(b), []) == Ok(es)
  {
    hide HoldsEntry, Scan, RawLines;
    ScanHolds(h, c, RawLines(b), es);
  }

  /**
   Verification decides exactly this: either neither file is there, or both are, every line of the
   log holds the entry its place and its predecessors call for, and the state names the last one.
   */
  lemma {:induction false} VerificationDecides(
    h: Hasher, c: Codec, file: Option<Bytes>, state: Option<TipState>, es: seq<Entry>)
    ensures VerifyLog(h, c, file, state) == Ok(es) <==>
            if file == None then state == None && es == []
            else
              && state.Some? && es != [] && FileHolds(h, c, file.value, es)
              && state.value.lastSequence == |es| && state.value.lastEntryHash == es[|es| - 1].entryHash
  {
    hide FileHolds, Scan, RawLines;
    if file.Some? { FileHoldsIffScanned(h, c, file.value, es); }
  }

  /** Two distinct hashed entries, found by walking two chains with one tip backwards. */
  function ChainCollision(c: Codec, xs: seq<Entry>, ys: seq<Entry>): Option<Collision>
    requires |xs| == |ys|
  {
    if xs == [] then None
    else
      var last := |xs| - 1;
      if xs[last].unsigned != ys[last].unsigned then
        Some(Collision(EntryInput(c.canonical(xs[last].unsigned)), EntryInput(c.canonical(ys[last].unsigned))))
      else ChainCollision(c, xs[..last], ys[..last])
  }

  lemma ChainedPrefix(h: Hasher, c: Codec, es: seq<Entry>, n: nat)
    requires Chained(h, c, es) && n <= |es|
    ensures Chained(h, c, es[..n])
  {
    hide Linked, WellFormedEntry;
    forall i | 0 <= i < n ensures Linked(h, c, es[..n], i) && WellFormedEntry(es[..n][i].unsigned) {
      assert Linked(h, c, es, i) && es[..n][..i] == es[..i];
      LinkedSame(h, c, es, es[..n], i);
    }
  }

  lemma ChainCollisionStep(c: Codec, xs: seq<Entry>, ys: seq<Entry>)
    requires |xs| == |ys| && xs != [] && xs[|xs| - 1].unsigned == ys[|xs| - 1].unsigned
    ensures ChainCollision(c, xs, ys) == ChainCollision(c, xs[..|xs| - 1], ys[..|xs| - 1])
  {
  }

  lemma {:induction false} TipBindsChain(h: Hasher, c: Codec, xs: seq<Entry>, ys: seq<Entry>)
    requires ValidCodec(c)
    requires Chained(h, c, xs) && Chained(h, c, ys)
    requires |xs| == |ys| && TipHash(xs) == TipHash(ys)
    ensures match ChainCollision(c, xs, ys)
            case None => xs == ys
            case Some(k) => IsCollision(h, k)
    decreases |xs|
  {
    hide Chained, ValidCodec, Linked;
    if xs != [] {
      var last := |xs| - 1;
      var x, y := xs[last].unsigned, ys[last].unsigned;
      LastLink(h, c, xs);
      LastLink(h, c, ys);
      if x == y {
        hide ChainCollision;
        ChainCollisionStep(c, xs, ys);
        TipBindsChain(h, c, xs[..last], ys[..last]);
        assert xs == xs[..last] + [xs[last]] && ys == ys[..last] + [ys[last]];
      } else {
        CanonicalDiffers(c, x, y);
      }
    }
  }

  lemma LastLink(h: Hasher, c: Codec, es: seq<Entry>)
    requires Chained(h, c, es) && es != []
    ensures var last := |es| - 1;
            && Chained(h, c, es[..last])
            && es[last].entryHash == EntryHash(h, c, es[last].unsigned)
            && es[last].unsigned.previousEntryHash == TipHash(es[..last])
  {
    ChainedPrefix(h, c, es, |es| - 1);
    assert Linked(h, c, es, |es| - 1);
  }

  lemma CanonicalDiffers(c: Codec, u: UnsignedEntry, v: UnsignedEntry)
    requires ValidCodec(c) && u != v
    ensures c.canonical(u) != c.canonical(v)
  {
  }

  /** Two logs that verify against one state are equal entry by entry, or an entry hash collides. */
  lemma {:induction false} TipStatePinsLog(
    h: Hasher, c: Codec, file1: Option<Bytes>, file2: Option<Bytes>, state: Option<TipState>)
    requires ValidCodec(c)
    requires VerifyLog(h, c, file1, state).Ok? && VerifyLog(h, c, file2, state).Ok?
    ensures var xs, ys := VerifyLog(h, c, file1, state).value, VerifyLog(h, c, file2, state).value;
            && |xs| == |ys|
            && match ChainCollision(c, xs, ys)
               case None => xs == ys
               case Some(k) => IsCollision(h, k)
  {
    hide Chained, ValidCodec, ChainCollision;
    VerifiedIsChained(h, c, file1, state);
    VerifiedIsChained(h, c, file2, state);
    TipBindsChain(h, c, VerifyLog(h, c, file1, state).value, VerifyLog(h, c, file2, state).value);
  }

  // ---------------------------------------------------------------- registration

  datatype AppendResult = AppendResult(inclusion: Inclusion, registered: bool)

  function FindEntry(es: seq<Entry>, id: string): (r: Option<Entry>)
    ensures r.Some? <==> HasIdentifier(es, id)
    ensures r.Some? ==> r.value in es && r.value.unsigned.artifactIdentifier == id
  {
    if es == [] then None
    else
      var last := |es| - 1;
      assert es == es[..last] + [es[last]];
      if es[last].unsigned.artifactIdentifier == id then Some(es[last]) else FindEntry(es[..last], id)
  }

  function RequireInclusion(inclusion: Option<Inclusion>, a: Artifact): Result<Inclusion, LogError> {
    match inclusion
    case None => Err(if a.artifactType.RootTransition? then UnloggedRootTransition else UnloggedManifest)
    case Some(i) =>
      if i.artifactType != a.artifactType || i.artifactSha256 != a.artifactSha256 then
        Err(if a.artifactType.RootTransition? then RootTransitionConflict else ManifestConflict)
      else Ok(i)
  }

  /** require_transparency_entry against the entries of a verified log. */
  function RequireEntry(es: seq<Entry>, a: Artifact): Result<Inclusion, LogError> {
    RequireInclusion(match FindEntry(es, a.artifactIdentifier) case None => None case Some(e) => Some(InclusionOf(e)),
        a)
  }

  function NextUnsigned(es: seq<Entry>, a: Artifact, recordedAt: int): UnsignedEntry {
    UnsignedEntry(|es| + 1, recordedAt, a.artifactType, a.artifactVersion, a.artifactIdentifier, a.artifactSha256,
                  TipHash(es), a.metadata)
  }

  function NextEntry(h: Hasher, c: Codec, es: seq<Entry>, a: Artifact, recordedAt: int): Entry {
    var u := NextUnsigned(es, a, recordedAt);
    Entry(u, EntryHash(h, c, u))
  }

  function EntryLine(c: Codec, e: Entry): Bytes {
    c.encode(e) + [NEWLINE]
  }

  function TipOf(e: Entry, updatedAt: int): TipState {
    TipState(e.unsigned.sequence, e.entryHash, e.unsigned.artifactType, e.unsigned.artifactIdentifier, updatedAt)
  }

  function Contents(file: Option<Bytes>): Bytes {
    match file case None => [] case Some(b) => b
  }

  /** The line a registration appends to a verified log, or what it does instead. */
  function PlanRegistration(
    h: Hasher, c: Codec, file: Option<Bytes>, es: seq<Entry>, a: Artifact, recordedAt: int
  ): Result<Bytes, LogError>
  {
    if |es| >= MAX_LOG_ENTRIES then Err(Invalid)
    else if !WellFormedEntry(NextUnsigned(es, a, recordedAt)) then Err(Invalid)
    else
      var line := EntryLine(c, NextEntry(h, c, es, a, recordedAt));
      if |line| > MAX_ENTRY_BYTES || |Contents(file)| + |line| > MAX_LOG_BYTES then Err(Invalid) else Ok(line)
  }

  datatype Effect = Effect(result: Result<AppendResult, LogError>, file: Option<Bytes>, state: Option<TipState>)

  /** What register_verified_artifact does to the two files when nothing interrupts it. */
  function RegisterEffect(
    h: Hasher, c: Codec, file: Option<Bytes>, state: Option<TipState>, a: Artifact, recordedAt: int
  ): Effect
  {
    match VerifyLog(h, c, file, state)
    case Err(error) => Effect(Err(error), file, state)
    case Ok(es) =>
      if HasIdentifier(es, a.artifactIdentifier) then
        match RequireEntry(es, a)
        case Err(error) => Effect(Err(error), file, state)
        case Ok(i) => Effect(Ok(AppendResult(i, false)), file, state)
      else
        match PlanRegistration(h, c, file, es, a, recordedAt)
        case Err(error) => Effect(Err(error), file, state)
        case Ok(line) =>
          var e := NextEntry(h, c, es, a, recordedAt);
          Effect(Ok(AppendResult(InclusionOf(e), true)), Some(Contents(file) + line), Some(TipOf(e, recordedAt)))
  }

  lemma {:induction false} ScannedLinesEnd(h: Hasher, c: Codec, lines: seq<Bytes>, es: seq<Entry>)
    requires Scan(h, c, lines, es).Ok?
    ensures forall i | 0 <= i < |lines| :: lines[i] != [] && lines[i][|lines[i]| - 1] == NEWLINE
    decreases |lines|
  {
    if lines != [] {
      ScannedLinesEnd(h, c, lines[1..], es + [CheckLine(h, c, lines[0], es).value]);
    }
  }

  lemma {:induction false} VerifiedFileEndsLine(h: Hasher, c: Codec, file: Option<Bytes>, state: Option<TipState>)
    requires VerifyLog(h, c, file, state).Ok?
    ensures EndsLine(Contents(file))
  {
    hide RawLines, Scan;
    if file.Some? && file.value != [] {
      ScannedLinesEnd(h, c, RawLines(file.value), []);
      LastRawLine(file.value);
    }
  }

  lemma {:induction false} VerifiedScan(h: Hasher, c: Codec, file: Option<Bytes>, state: Option<TipState>)
    requires VerifyLog(h, c, file, state).Ok?
    ensures Scan(h, c, RawLines(Contents(file)), []) == Ok(VerifyLog(h, c, file, state).value)
  {
  }

  lemma {:induction false} NextLineChecks(h: Hasher, c: Codec, es: seq<Entry>, a: Artifact, recordedAt: int)
    requires ValidCodec(c)
    requires |es| < MAX_LOG_ENTRIES && !HasIdentifier(es, a.artifactIdentifier)
    requires WellFormedEntry(NextUnsigned(es, a, recordedAt))
    requires |EntryLine(c, NextEntry(h, c, es, a, recordedAt))| <= MAX_ENTRY_BYTES
    ensures var e := NextEntry(h, c, es, a, recordedAt); CheckLine(h, c, EntryLine(c, e), es) == Ok(e)
  {
    var e := NextEntry(h, c, es, a, recordedAt);
    var line := EntryLine(c, e);
    assert line[..|line| - 1] == c.encode(e);
    assert !IsBlank(line) by {
      var i :| 0 <= i < |c.encode(e)| && c.encode(e)[i] !in WHITESPACE;
      assert line[i] == c.encode(e)[i];
    }
    hide IsBlank, WellFormedArtifact;
  }

  lemma {:induction false} ScanOfAppended(
    h: Hasher, c: Codec, prior: Bytes, es: seq<Entry>, a: Artifact, recordedAt: int)
    requires ValidCodec(c)
    requires EndsLine(prior) && Scan(h, c, RawLines(prior), []) == Ok(es)
    requires |es| < MAX_LOG_ENTRIES && !HasIdentifier(es, a.artifactIdentifier)
    requires WellFormedEntry(NextUnsigned(es, a, recordedAt))
    requires |EntryLine(c, NextEntry(h, c, es, a, recordedAt))| <= MAX_ENTRY_BYTES
    ensures var e := NextEntry(h, c, es, a, recordedAt);
            Scan(h, c, RawLines(prior + EntryLine(c, e)), []) == Ok(es + [e])
  {
    var e := NextEntry(h, c, es, a, recordedAt);
    var line := EntryLine(c, e);
    NextLineChecks(h, c, es, a, recordedAt);
    assert forall i | 0 <= i < |line| - 1 :: line[i] == c.encode(e)[i];
    hide CheckLine, RawLines, NextEntry;
    RawLinesOfOne(line);
    RawLinesAppend(prior, line);
    ScanAppend(h, c, RawLines(prior), [line], []);
    assert [line][1..] == [];
    assert Scan(h, c, [line], es) == Scan(h, c, [], es + [e]);
  }

  /** The write limits line up with the read limits: whatever is registered verifies, one entry longer. */
  lemma {:induction false} AppendVerifies(
    h: Hasher, c: Codec, file: Option<Bytes>, state: Option<TipState>, a: Artifact, recordedAt: int)
    requires ValidCodec(c)
    requires VerifyLog(h, c, file, state).Ok?
    requires var es := VerifyLog(h, c, file, state).value;
             !HasIdentifier(es, a.artifactIdentifier) && PlanRegistration(h, c, file, es, a, recordedAt).Ok?
    ensures var es := VerifyLog(h, c, file, state).value;
            var e := NextEntry(h, c, es, a, recordedAt);
            var line := PlanRegistration(h, c, file, es, a, recordedAt).value;
            VerifyLog(h, c, Some(Contents(file) + line), Some(TipOf(e, recordedAt))) == Ok(es + [e])
  {
    hide Scan, RawLines, ValidCodec, WellFormedEntry, HasIdentifier;
    VerifiedFileEndsLine(h, c, file, state);
    VerifiedScan(h, c, file, state);
    ScanOfAppended(h, c, Contents(file), VerifyLog(h, c, file, state).value, a, recordedAt);
  }

  /**
   Registration is closed and idempotent.  On a verified log it registers a new artifact
   exactly when the artifact is well formed and the limits leave room, and then the log
   verifies with that one entry at its end; an artifact whose identifier is there changes
   nothing, and is answered with the entry or with a conflict.
   */
  lemma {:induction false} RegisterIsClosed(
    h: Hasher, c: Codec, file: Option<Bytes>, state: Option<TipState>, a: Artifact, recordedAt: int)
    requires ValidCodec(c)
    requires VerifyLog(h, c, file, state).Ok?
    ensures var es := VerifyLog(h, c, file, state).value;
            var e := NextEntry(h, c, es, a, recordedAt);
            var f := RegisterEffect(h, c, file, state, a, recordedAt);
            var isNew := !HasIdentifier(es, a.artifactIdentifier);
            var fits := |es| < MAX_LOG_ENTRIES && |EntryLine(c, e)| <= MAX_ENTRY_BYTES
                        && |Contents(file)| + |EntryLine(c, e)| <= MAX_LOG_BYTES;
            && (f.result.Ok? && f.result.value.registered <==> isNew && WellFormedArtifact(a) && fits)
            && (f.result.Ok? && f.result.value.registered ==>
                  VerifyLog(h, c, f.file, f.state) == Ok(es + [e]) && f.result.value.inclusion == InclusionOf(e))
            && (!(f.result.Ok? && f.result.value.registered) ==> f.file == file && f.state == state)
  {
    var es := VerifyLog(h, c, file, state).value;
    assert ArtifactOf(NextUnsigned(es, a, recordedAt)) == a;
    hide VerifyLog, WellFormedArtifact, HasIdentifier, ValidCodec, NextEntry;
    if !HasIdentifier(es, a.artifactIdentifier) && PlanRegistration(h, c, file, es, a, recordedAt).Ok? {
      AppendVerifies(h, c, file, state, a, recordedAt);
    }
  }

  lemma FindNewest(es: seq<Entry>, e: Entry)
    ensures FindEntry(es + [e], e.unsigned.artifactIdentifier) == Some(e)
    ensures HasIdentifier(es + [e], e.unsigned.artifactIdentifier)
  {
    assert (es + [e])[|es|] == e;
  }

  /** Registering again, at any time, changes nothing; the same identifier with another digest is a conflict. */
  lemma {:induction false} RegisterIsIdempotent(
    h: Hasher, c: Codec, file: Option<Bytes>, state: Option<TipState>, a: Artifact, t: int, b: Artifact, u: int)
    requires ValidCodec(c)
    requires RegisterEffect(h, c, file, state, a, t).result.Ok?
    requires b.artifactIdentifier == a.artifactIdentifier
    ensures var f := RegisterEffect(h, c, file, state, a, t);
            var g := RegisterEffect(h, c, f.file, f.state, b, u);
            && g.file == f.file && g.state == f.state
            && (g.result == Ok(AppendResult(f.result.value.inclusion, false))
                <==> b.artifactType == a.artifactType && b.artifactSha256 == a.artifactSha256)
            && (g.result.Ok? <==> b.artifactType == a.artifactType && b.artifactSha256 == a.artifactSha256)
  {
    hide VerifyLog, WellFormedArtifact, HasIdentifier, ValidCodec, PlanRegistration;
    var es := VerifyLog(h, c, file, state).value;
    if !HasIdentifier(es, a.artifactIdentifier) {
      AppendVerifies(h, c, file, state, a, t);
      FindNewest(es, NextEntry(h, c, es, a, t));
    }
  }

  // ---------------------------------------------------------------- what a registration leaves behind

  /** The inclusion result is that of entry n, field by field. */
  predicate InclusionIs(i: Inclusion, e: Entry) {
    && i.sequence == e.unsigned.sequence && i.entryHash == e.entryHash && i.recordedAt == e.unsigned.recordedAt
    && i.artifactType == e.unsigned.artifactType && i.artifactIdentifier == e.unsigned.artifactIdentifier
    && i.artifactSha256 == e.unsigned.artifactSha256
  }

  /** The entry records the artifact at that time, as number |es| + 1 after the entries of `es`. */
  predicate Records(h: Hasher, c: Codec, e: Entry, a: Artifact, recordedAt: int, es: seq<Entry>) {
    var u := e.unsigned;
    && u.artifactType == a.artifactType && u.artifactVersion == a.artifactVersion
    && u.artifactIdentifier == a.artifactIdentifier && u.artifactSha256 == a.artifactSha256 && u.metadata == a.metadata
    && u.recordedAt == recordedAt && u.sequence == |es| + 1
    && u.previousEntryHash == (if es == [] then None else Some(es[|es| - 1].entryHash))
    && e.entryHash == h.of(EntryInput(c.canonical(u)))
  }

  /**
   After a registration the verified log is the old one and one entry, which records the artifact
   asked for at the time given; the answer is that entry, the state names it, and the file is the
   old one with the entry's line at its end.
   */
  lemma {:induction false} RegistrationRecordsArtifact(
    h: Hasher, c: Codec, file: Option<Bytes>, state: Option<TipState>, a: Artifact, recordedAt: int) returns (e: Entry)
    requires ValidCodec(c) && VerifyLog(h, c, file, state).Ok?
    requires var f := RegisterEffect(h, c, file, state, a, recordedAt); f.result.Ok? && f.result.value.registered
    ensures var es, f := VerifyLog(h, c, file, state).value, RegisterEffect(h, c, file, state, a, recordedAt);
            && VerifyLog(h, c, f.file, f.state) == Ok(es + [e])
            && Records(h, c, e, a, recordedAt, es)
            && InclusionIs(f.result.value.inclusion, e)
            && f.state == Some(TipState(|es| + 1, e.entryHash, a.artifactType, a.artifactIdentifier, recordedAt))
            && f.file == Some((match file case None => [] case Some(b) => b) + c.encode(e) + [NEWLINE])
  {
    hide VerifyLog, ValidCodec, HasIdentifier, WellFormedEntry, RequireEntry;
    RegisterIsClosed(h, c, file, state, a, recordedAt);
    e := NextEntry(h, c, VerifyLog(h, c, file, state).value, a, recordedAt);
    PlanIsTheLine(h, c, file, VerifyLog(h, c, file, state).value, a, recordedAt);
    assert Contents(file) + (c.encode(e) + [NEWLINE]) == Contents(file) + c.encode(e) + [NEWLINE];
  }

  lemma PlanIsTheLine(h: Hasher, c: Codec, file: Option<Bytes>, es: seq<Entry>, a: Artifact, recordedAt: int)
    ensures var plan := PlanRegistration(h, c, file, es, a, recordedAt);
            plan.Ok? ==> plan.value == c.encode(NextEntry(h, c, es, a, recordedAt)) + [NEWLINE]
  {
    hide NextEntry, WellFormedEntry;
  }

  /** What may be logged: metadata of the artifact's type, with numbers from 1, under the identifier made of it. */
  predicate CanBeLogged(a: Artifact) {
    var m := a.metadata;
    && a.artifactVersion >= 1 && |a.artifactIdentifier| <= 512
    && match a.artifactType
       case RootTransition =>
         && m.RootTransitionMetadata?
         && m.previousRootEpoch >= 1 && m.nextRootEpoch >= 1 && m.transitionGeneration >= 1
         && a.artifactIdentifier
            == RootTransitionIdentifier(m.previousRootEpoch, m.nextRootEpoch, m.transitionGeneration)
       case SigningKeyManifest =>
         && m.SigningKeyManifestMetadata?
         && m.manifestGeneration >= 1 && m.keyCount >= 1
         && a.artifactIdentifier == SigningKeyManifestIdentifier(m.rootFingerprint, m.manifestGeneration)
  }

  lemma LoggedIffWellFormed(a: Artifact)
    ensures CanBeLogged(a) <==> WellFormedArtifact(a)
  {
    if CanBeLogged(a) && a.artifactType == SigningKeyManifest {
      assert SigningKeyManifestIdentifier(a.metadata.rootFingerprint, a.metadata.manifestGeneration) != [];
    }
  }

  /**
   Every entry of a verified log can be logged, and no two entries are of one artifact: one root
   transition per pair of epochs and generation, one manifest per root and generation.
   */
  lemma {:induction false} OneEntryPerArtifact(
    h: Hasher, c: Codec, file: Option<Bytes>, state: Option<TipState>, i: nat, j: nat)
    requires ValidCodec(c) && VerifyLog(h, c, file, state).Ok?
    requires i <= j < |VerifyLog(h, c, file, state).value|
    ensures var u := VerifyLog(h, c, file, state).value[i].unsigned;
            CanBeLogged(Artifact(u.artifactType, u.artifactVersion, u.artifactIdentifier, u.artifactSha256, u.metadata))
    ensures var es := VerifyLog(h, c, file, state).value;
            var a, b := es[i].unsigned, es[j].unsigned;
            i < j && a.artifactType == b.artifactType ==>
              match (a.metadata, b.metadata)
              case (RootTransitionMetadata(p, _, _, n, _, _, g, _),
                    RootTransitionMetadata(p', _, _, n', _, _, g', _)) => (p, n, g) != (p', n', g')
              case (SigningKeyManifestMetadata(_, r, g, _, _, _), SigningKeyManifestMetadata(_, r', g', _, _, _)) =>
                (r, g) != (r', g')
              case _ => false
  {
    hide VerifyLog, ValidCodec, Linked, RootTransitionIdentifier, SigningKeyManifestIdentifier;
    VerifiedIsChained(h, c, file, state);
    var es := VerifyLog(h, c, file, state).value;
    assert WellFormedEntry(es[i].unsigned) && WellFormedEntry(es[j].unsigned);
    LoggedIffWellFormed(ArtifactOf(es[i].unsigned));
    LoggedIffWellFormed(ArtifactOf(es[j].unsigned));
  }

  /** An artifact is registered exactly when it is new and well formed and its line fits the limits. */
  lemma {:induction false} RegisteredIffItFits(
    h: Hasher, c: Codec, file: Option<Bytes>, state: Option<TipState>, a: Artifact, recordedAt: int, e: Entry)
    requires ValidCodec(c) && VerifyLog(h, c, file, state).Ok?
    requires Records(h, c, e, a, recordedAt, VerifyLog(h, c, file, state).value)
    ensures var es, r := VerifyLog(h, c, file, state).value, RegisterEffect(h, c, file, state, a, recordedAt).result;
            r.Ok? && r.value.registered <==>
            && (forall i | 0 <= i < |es| :: es[i].unsigned.artifactIdentifier != a.artifactIdentifier)
            && CanBeLogged(a) && |es| < 100_000
            && |c.encode(e)| + 1 <= 64 * 1024
            && (match file case None => 0 case Some(b) => |b|) + |c.encode(e)| + 1 <= 20 * 1024 * 1024
  {
    LoggedIffWellFormed(a);
    hide VerifyLog, ValidCodec, WellFormedArtifact, CanBeLogged, RegisterEffect;
    RegisterIsClosed(h, c, file, state, a, recordedAt);
    var es := VerifyLog(h, c, file, state).value;
    assert e == NextEntry(h, c, es, a, recordedAt);
    assert HasIdentifier(es, a.artifactIdentifier) <==>
           exists i | 0 <= i < |es| :: es[i].unsigned.artifactIdentifier == a.artifactIdentifier;
  }

  /**
   Requiring an artifact of a verified log: answered with the entry that has its identifier,
   exactly when that entry has its type and digest; otherwise the error tells a missing artifact
   from a conflicting one, and a root transition from a manifest.
   */
  lemma {:induction false} RequirementIsAnswered(es: seq<Entry>, a: Artifact)
    requires DistinctIdentifiers(es)
    ensures forall n | 0 <= n < |es| && es[n].unsigned.artifactIdentifier == a.artifactIdentifier ::
              var u := es[n].unsigned;
              var matches := u.artifactType == a.artifactType && u.artifactSha256 == a.artifactSha256;
              if matches then RequireEntry(es, a).Ok? && InclusionIs(RequireEntry(es, a).value, es[n])
              else if a.artifactType == RootTransition then RequireEntry(es, a) == Err(RootTransitionConflict)
              else RequireEntry(es, a) == Err(ManifestConflict)
    ensures (forall n | 0 <= n < |es| :: es[n].unsigned.artifactIdentifier != a.artifactIdentifier) ==>
              RequireEntry(es, a)
              == Err(if a.artifactType == RootTransition then UnloggedRootTransition else UnloggedManifest)
  {
    hide FindEntry;
    var found := FindEntry(es, a.artifactIdentifier);
    if found.Some? {
      var j :| 0 <= j < |es| && es[j] == found.value;
    }
  }

  /**
   How a refused log is told apart: one of the two files without the other, or a log file without
   a line, is a divergence; a log that holds together but is not the one the state names is a
   state mismatch.
   */
  lemma {:induction false} VerificationRefusals(h: Hasher, c: Codec, file: Option<Bytes>, state: Option<TipState>)
    ensures VerifyLog(h, c, file, state) == Err(Divergence) <==>
            file.Some? != state.Some? || (state.Some? && file == Some([]))
    ensures VerifyLog(h, c, file, state) == Err(StateMismatch) <==>
            file.Some? && state.Some? &&
            exists es: seq<Entry> ::
              && es != [] && FileHolds(h, c, file.value, es)
              && (state.value.lastSequence != |es| || state.value.lastEntryHash != es[|es| - 1].entryHash)
  {
    hide FileHolds, Scan, RawLines;
    if file.Some? && state.Some? {
      var b := file.value;
      ScanErrors(h, c, RawLines(b), []);
      EmptyFileHasNoLines(b);
      forall es: seq<Entry> | es != []
        ensures FileHolds(h, c, b, es) <==> |b| <= MAX_LOG_BYTES && Scan(h, c, RawLines(b), []) == Ok(es)
      {
        FileHoldsIffScanned(h, c, b, es);
      }
      ScanOfNothing(h, c, RawLines(b));
    }
  }

  lemma {:induction false} ScanErrors(h: Hasher, c: Codec, lines: seq<Bytes>, es: seq<Entry>)
    ensures Scan(h, c, lines, es).Err? ==> Scan(h, c, lines, es).error in {Invalid, Conflict}
    decreases |lines|
  {
    if lines != [] && CheckLine(h, c, lines[0], es).Ok? {
      ScanErrors(h, c, lines[1..], es + [CheckLine(h, c, lines[0], es).value]);
    }
  }

  lemma EmptyFileHasNoLines(b: Bytes)
    ensures RawLines(b) == [] <==> b == []
  {
    hide LineEnd;
  }

  lemma ScanOfNothing(h: Hasher, c: Codec, lines: seq<Bytes>)
    ensures Scan(h, c, lines, []) == Ok([]) <==> lines == []
  {
    hide CheckLine;
    ScanDecides(h, c, lines, [], []);
  }
}
