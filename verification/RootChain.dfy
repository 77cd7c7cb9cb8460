/**
 What the root trust state guarantees over whole runs: an unbroken chain of doubly signed
 hand-overs, and, for transitions that go through the transparency log, agreement between any
 two installations that share the log (apply_root_transition_with_transparency of
 app/root_trust_state.py).
 */
module RootChain {
  import opened Wrappers
  import opened Hashing
  import opened Identifiers
  import opened RootTransitions
  import opened SigningKeyManifests
  import opened TrustStates
  import TL = TransparencyLog
  import LP = LogProtocol
  import LR = LogRegistrations

  // ---------------------------------------------------------------- chain of trust

  /** A transition and the time it was applied at. */
  datatype Link = Link(files: TransitionFiles, at: int)

  /** The transitions that the operations i .. j-1 applied, in order. */
  function AppliedBetween(
      k: Scheme, digest: Manifest -> Digest, start: Files, ops: seq<Op>, i: nat, j: nat
  ): seq<Link>
    requires i <= j <= |ops|
    decreases j - i
  {
    if i == j then []
    else
      AppliedBetween(k, digest, start, ops, i, j - 1)
      + if ops[j - 1].TransitionOp? && Succeeds(k, digest, After(k, digest, start, ops, j - 1), ops[j - 1])
        then [Link(ops[j - 1].files, ops[j - 1].at)] else []
  }

  /** A hand-over from one root state to the next by a transition that both roots signed, within its time. */
  predicate HandsOver(k: Scheme, before: RootState, after: RootState, link: Link) {
    var t := link.files.transition;
    && TransitionInForce(k, before, link.files, link.at)
    && t.nextRoot == KeyEntry(after.epoch, after.keyId, after.publicKey, after.fingerprint)
    && after.lastTransitionSha256 == Some(k.transitionDigest(t)) && after.updatedAt == link.at
  }

  lemma {:induction false} AppliedHandsOver(k: Scheme, files: Files, f: TransitionFiles, time: int, names: bool)
    requires ApplyTransition(k, files, f, time, names).Ok?
    ensures files.root.Some?
    ensures var after := ApplyTransition(k, files, f, time, names).value;
            after.root.Some? && HandsOver(k, files.root.value, after.root.value, Link(f, time))
  {
  }

  lemma {:induction false} RootStep(k: Scheme, digest: Manifest -> Digest, files: Files, op: Op)
    requires files.root.Some? && Succeeds(k, digest, files, op)
    ensures var after := Effect(k, digest, files, op).value;
            after.root.Some? &&
            if op.TransitionOp? then HandsOver(k, files.root.value, after.root.value, Link(op.files, op.at))
            else after.root == files.root
  {
    if op.TransitionOp? {
      AppliedHandsOver(k, files, op.files, op.at, op.namesManifest);
    } else {
      hide VerifyManifest;
    }
  }

  /** The links hand over from each root state of the list to the next. */
  predicate ChainOfTrust(k: Scheme, roots: seq<RootState>, links: seq<Link>) {
    |roots| == |links| + 1 && forall n | 0 <= n < |links| :: HandsOver(k, roots[n], roots[n + 1], links[n])
  }

  lemma ChainOfTrustGrows(
      k: Scheme, roots: seq<RootState>, links: seq<Link>, next: RootState, link: Link)
    requires ChainOfTrust(k, roots, links) && HandsOver(k, roots[|links|], next, link)
    ensures ChainOfTrust(k, roots + [next], links + [link])
  {
    hide HandsOver;
  }

  lemma {:induction false} ChainOfTrustEpochs(k: Scheme, roots: seq<RootState>, links: seq<Link>, n: nat)
    requires ChainOfTrust(k, roots, links) && n <= |links|
    ensures roots[n].epoch == roots[0].epoch + n
  {
    hide HandsOver;
    if n > 0 {
      ChainOfTrustEpochs(k, roots, links, n - 1);
      HandOverEpoch(k, roots[n - 1], roots[n - 1 + 1], links[n - 1]);
    }
  }

  /**
   The chain of trust.  Between any two moments of a run, the transitions applied in between, and
   nothing else, link the first root to the last, each signed by both of its roots and applied within its time.
   */
  lemma {:induction false} RootsAreLinked(
      k: Scheme, digest: Manifest -> Digest, start: Files, ops: seq<Op>, i: nat, j: nat)
    returns (roots: seq<RootState>)
    requires i <= j <= |ops| && After(k, digest, start, ops, i).root.Some?
    ensures After(k, digest, start, ops, j).root.Some?
    ensures ChainOfTrust(k, roots, AppliedBetween(k, digest, start, ops, i, j))
    ensures roots[0] == After(k, digest, start, ops, i).root.value
    ensures roots[|roots| - 1] == After(k, digest, start, ops, j).root.value
    decreases j - i
  {
    hide Effect, HandsOver;
    if i == j {
      roots := [After(k, digest, start, ops, i).root.value];
    } else {
      roots := RootsAreLinked(k, digest, start, ops, i, j - 1);
      var before := After(k, digest, start, ops, j - 1);
      if Succeeds(k, digest, before, ops[j - 1]) {
        RootStep(k, digest, before, ops[j - 1]);
        if ops[j - 1].TransitionOp? {
          var next := After(k, digest, start, ops, j).root.value;
          ChainOfTrustGrows(k, roots, AppliedBetween(k, digest, start, ops, i, j - 1), next,
                            Link(ops[j - 1].files, ops[j - 1].at));
          roots := roots + [next];
        }
      }
    }
  }

  /** After n applied transitions from epoch e the state is at e + n. */
  lemma {:induction false} EpochCountsTransitions(
    k: Scheme, digest: Manifest -> Digest, start: Files, ops: seq<Op>, i: nat, j: nat)
    requires i <= j <= |ops| && After(k, digest, start, ops, i).root.Some?
    ensures After(k, digest, start, ops, j).root.Some?
    ensures After(k, digest, start, ops, j).root.value.epoch
            == After(k, digest, start, ops, i).root.value.epoch + |AppliedBetween(k, digest, start, ops, i, j)|
  {
    hide *;
    var roots := RootsAreLinked(k, digest, start, ops, i, j);
    var links := AppliedBetween(k, digest, start, ops, i, j);
    ChainOfTrustShape(k, roots, links);
    ChainOfTrustEpochs(k, roots, links, |links|);
  }

  lemma ChainOfTrustShape(k: Scheme, roots: seq<RootState>, links: seq<Link>)
    requires ChainOfTrust(k, roots, links)
    ensures |roots| == |links| + 1
  {
  }

  lemma HandOverEpoch(k: Scheme, before: RootState, after: RootState, link: Link)
    requires HandsOver(k, before, after, link)
    ensures link.files.transition.previousRoot.epoch == before.epoch && after.epoch == before.epoch + 1
  {
  }

  /** Consecutive roots of a run are linked by a manifest with valid signatures of both. */
  lemma {:induction false} EveryHandOverIsSigned(
    k: Scheme, digest: Manifest -> Digest, start: Files, ops: seq<Op>, i: nat)
    requires i < |ops| && ops[i].TransitionOp?
    requires Succeeds(k, digest, After(k, digest, start, ops, i), ops[i])
    ensures After(k, digest, start, ops, i).root.Some? && After(k, digest, start, ops, i + 1).root.Some?
    ensures HandsOver(k, After(k, digest, start, ops, i).root.value, After(k, digest, start, ops, i + 1).root.value,
                      Link(ops[i].files, ops[i].at))
  {
    hide HandsOver, VerifyRootTransition;
    var before := After(k, digest, start, ops, i);
    AppliedHandsOver(k, before, ops[i].files, ops[i].at, ops[i].namesManifest);
    assert After(k, digest, start, ops, i + 1) == ApplyTransition(k, before, ops[i].files, ops[i].at,
            ops[i].namesManifest).value;
  }

  /** An applied transition can never be applied again, whenever and with whatever signature files. */
  lemma {:induction false} NoTransitionTwice(
    k: Scheme, digest: Manifest -> Digest, start: Files, ops: seq<Op>, i: nat, j: nat,
    f: TransitionFiles, time: int, names: bool)
    requires i < j <= |ops| && ops[i].TransitionOp?
    requires Succeeds(k, digest, After(k, digest, start, ops, i), ops[i])
    requires f.transition == ops[i].files.transition
    ensures ApplyTransition(k, After(k, digest, start, ops, j), f, time, names).Err?
  {
    hide *;
    EveryHandOverIsSigned(k, digest, start, ops, i);
    HandOverEpoch(k, After(k, digest, start, ops, i).root.value, After(k, digest, start, ops, i + 1).root.value,
                  Link(ops[i].files, ops[i].at));
    EpochCountsTransitions(k, digest, start, ops, i + 1, j);
    AppliesOnlyAtItsEpoch(k, After(k, digest, start, ops, j), f, time, names);
  }

  lemma AppliesOnlyAtItsEpoch(k: Scheme, files: Files, f: TransitionFiles, time: int, names: bool)
    ensures ApplyTransition(k, files, f, time, names).Ok? ==>
              files.root.Some? && files.root.value.epoch == f.transition.previousRoot.epoch
  {
  }

  /**
   Where the chain begins: a root state that is there was reached from one initialisation, of the
   key, the epoch and the time given to it, before which there was none; every root since then is
   linked to that one.
   */
  lemma {:induction false} RootsGoBackToInitialization(
    k: Scheme, digest: Manifest -> Digest, start: Files, ops: seq<Op>, n: nat)
    returns (i: nat, roots: seq<RootState>)
    requires start.root == None && n <= |ops| && After(k, digest, start, ops, n).root.Some?
    ensures i < n && ops[i].InitializeOp? && ops[i].epoch >= 1
    ensures After(k, digest, start, ops, i).root == None
    ensures ChainOfTrust(k, roots, AppliedBetween(k, digest, start, ops, i + 1, n))
    ensures var key := ops[i].key;
            roots[0] == RootState(ops[i].epoch, key.keyId, key.publicKey, key.fingerprint, 0, None, ops[i].at)
    ensures roots[|roots| - 1] == After(k, digest, start, ops, n).root.value
  {
    hide *;
    i := InitializationBefore(k, digest, start, ops, n);
    roots := RootsAreLinked(k, digest, start, ops, i + 1, n);
    ChainOfTrustShape(k, roots, AppliedBetween(k, digest, start, ops, i + 1, n));
  }

  lemma {:induction false} InitializationBefore(
    k: Scheme, digest: Manifest -> Digest, start: Files, ops: seq<Op>, n: nat) returns (i: nat)
    requires start.root == None && n <= |ops| && After(k, digest, start, ops, n).root.Some?
    ensures i < n && ops[i].InitializeOp? && ops[i].epoch >= 1
    ensures After(k, digest, start, ops, i).root == None
    ensures var key := ops[i].key;
            After(k, digest, start, ops, i + 1).root
            == Some(RootState(ops[i].epoch, key.keyId, key.publicKey, key.fingerprint, 0, None, ops[i].at))
  {
    hide Effect;
    var before, op := After(k, digest, start, ops, n - 1), ops[n - 1];
    if before.root.Some? {
      i := InitializationBefore(k, digest, start, ops, n - 1);
    } else {
      i := n - 1;
      OnlyInitializationStarts(k, digest, before, op);
    }
  }

  lemma {:induction false} OnlyInitializationStarts(k: Scheme, digest: Manifest -> Digest, files: Files, op: Op)
    requires files.root == None
    ensures var after := Effect(k, digest, files, op);
            after.Some? && after.value.root.Some? ==>
              && op.InitializeOp? && op.epoch >= 1
              && after.value.root
                 == Some(RootState(op.epoch, op.key.keyId, op.key.publicKey, op.key.fingerprint, 0, None, op.at))
  {
    hide VerifyManifest;
  }

  // ---------------------------------------------------------------- through the log

  datatype LogMode = RequireExisting | RegisterIfMissing

  /** transparency_artifact_from_verified_root_transition */
  function TransitionArtifact(k: Scheme, t: Transition): TL.Artifact
    requires ValidTransition(k, t)
  {
    var p, n := t.previousRoot, t.nextRoot;
    TL.Artifact(
      TL.RootTransition, 1, RootTransitionIdentifier(p.epoch, n.epoch, ROOT_TRANSITION_GENERATION),
          k.transitionDigest(t),
      TL.RootTransitionMetadata(p.epoch, p.keyId, p.fingerprint, n.epoch, n.keyId, n.fingerprint,
                                ROOT_TRANSITION_GENERATION, [t.issuedAt, t.validFrom, t.validUntil]))
  }

  datatype LogFiles = LogFiles(file: Option<TL.Bytes>, state: Option<TL.TipState>)

  datatype LoggedError = RootFailure(root: RootError) | LogFailure(log: TL.LogError)

  datatype LoggedOutcome = LoggedOutcome(result: Result<Files, LoggedError>, log: LogFiles)

  /** apply_root_transition_with_transparency, with the effect on the log files. */
  function ApplyThroughLog(
    h: Hasher, c: TL.Codec, k: Scheme, files: Files, log: LogFiles, f: TransitionFiles, time: int, names: bool,
        mode: LogMode
  ): LoggedOutcome {
    match files.root
    case None => LoggedOutcome(Err(RootFailure(RootError.StateMissing)), log)
    case Some(current) =>
      match VerifyRootTransition(k, f, RootKeyOf(current), current.epoch, time)
      case Err(error) => LoggedOutcome(Err(RootFailure(error)), log)
      case Ok(verified) =>
        var artifact := TransitionArtifact(k, f.transition);
        var logged: (Option<TL.LogError>, LogFiles) :=
          if mode.RegisterIfMissing? then
            var e := TL.RegisterEffect(h, c, log.file, log.state, artifact, time);
            (match e.result case Err(error) => Some(error) case Ok(_) => None, LogFiles(e.file, e.state))
          else
            (match TL.VerifyLog(h, c, log.file, log.state)
             case Err(error) => Some(error)
             case Ok(es) => (match TL.RequireEntry(es, artifact) case Err(error) => Some(error) case Ok(_) => None),
                 log);
        match logged.0
        case Some(error) => LoggedOutcome(Err(LogFailure(error)), logged.1)
        case None =>
          match ApplyTransition(k, files, f, time, names)
          case Err(error) => LoggedOutcome(Err(RootFailure(error)), logged.1)
          case Ok(g) => LoggedOutcome(Ok(g), logged.1)
  }

  /** The verified log holds this transition under its identifier and with its digest. */
  predicate IsLogged(h: Hasher, c: TL.Codec, k: Scheme, log: LogFiles, t: Transition) {
    && ValidTransition(k, t)
    && TL.VerifyLog(h, c, log.file, log.state).Ok?
    && TL.RequireEntry(TL.VerifyLog(h, c, log.file, log.state).value, TransitionArtifact(k, t)).Ok?
  }

  lemma {:induction false} RegisteredIsRequired(
    h: Hasher, c: TL.Codec, log: LogFiles, a: TL.Artifact, time: int)
    requires TL.ValidCodec(c)
    requires TL.RegisterEffect(h, c, log.file, log.state, a, time).result.Ok?
    ensures var e := TL.RegisterEffect(h, c, log.file, log.state, a, time);
            var v := TL.VerifyLog(h, c, e.file, e.state);
            v.Ok? && TL.RequireEntry(v.value, a).Ok?
  {
    hide TL.VerifyLog, TL.HasIdentifier, TL.ValidCodec, TL.PlanRegistration;
    var es := TL.VerifyLog(h, c, log.file, log.state).value;
    if !TL.HasIdentifier(es, a.artifactIdentifier) {
      TL.AppendVerifies(h, c, log.file, log.state, a, time);
      TL.FindNewest(es, TL.NextEntry(h, c, es, a, time));
    }
  }

  /** A root state changes through the entry point only after the transition is in the verified log. */
  lemma {:induction false} AppliedMeansLogged(
    h: Hasher, c: TL.Codec, k: Scheme, files: Files, log: LogFiles, f: TransitionFiles, time: int, names: bool,
        mode: LogMode)
    requires TL.ValidCodec(c)
    requires ApplyThroughLog(h, c, k, files, log, f, time, names, mode).result.Ok?
    ensures ApplyTransition(k, files, f, time, names) ==
            Ok(ApplyThroughLog(h, c, k, files, log, f, time, names, mode).result.value)
    ensures IsLogged(h, c, k, ApplyThroughLog(h, c, k, files, log, f, time, names, mode).log, f.transition)
  {
    hide TL.VerifyLog, TL.RegisterEffect, TL.RequireEntry, TL.ValidCodec, ApplyTransition;
    if mode.RegisterIfMissing? {
      RegisteredIsRequired(h, c, log, TransitionArtifact(k, f.transition), time);
    }
  }

  /**
   What the log then says of the hand-over.  When the entry point registers a transition that was
   not logged before, the new last entry names the two roots, their epochs, the times of the
   transition and its digest, and was recorded at the time of the call.
   */
  lemma {:induction false} HandOverIsRecorded(
    h: Hasher, c: TL.Codec, k: Scheme, files: Files, log: LogFiles, f: TransitionFiles, time: int, names: bool)
    returns (e: TL.Entry)
    requires TL.ValidCodec(c) && ValidTransition(k, f.transition)
    requires ApplyThroughLog(h, c, k, files, log, f, time, names, RegisterIfMissing).result.Ok?
    requires TL.VerifyLog(h, c, log.file, log.state).Ok?
    requires var id := RootTransitionIdentifier(f.transition.previousRoot.epoch, f.transition.nextRoot.epoch, 1);
             !TL.HasIdentifier(TL.VerifyLog(h, c, log.file, log.state).value, id)
    ensures files.root.Some?
    ensures var out, r := ApplyThroughLog(h, c, k, files, log, f, time, names, RegisterIfMissing), files.root.value;
            var next := f.transition.nextRoot;
            && out.result.value.root.Some?
            && TL.VerifyLog(h, c, out.log.file, out.log.state)
               == Ok(TL.VerifyLog(h, c, log.file, log.state).value + [e])
            && e.unsigned.recordedAt == time && e.unsigned.artifactType == TL.RootTransition
            && e.unsigned.artifactVersion == 1 && e.unsigned.artifactSha256 == k.transitionDigest(f.transition)
            && e.unsigned.artifactIdentifier == RootTransitionIdentifier(r.epoch, next.epoch, 1)
            && e.unsigned.metadata
               == TL.RootTransitionMetadata(r.epoch, r.keyId, r.fingerprint, next.epoch, next.keyId,
                                            next.fingerprint, 1,
                                            [f.transition.issuedAt, f.transition.validFrom, f.transition.validUntil])
  {
    hide TL.VerifyLog, TL.ValidCodec, TL.HasIdentifier, TL.PlanRegistration, TL.RequireEntry, VerifyRootTransition,
         ApplyTransition;
    var a := TransitionArtifact(k, f.transition);
    AppliedIffInForce(k, files, f, time, names);
    NewIsRegistered(h, c, log, a, time);
    e := TL.RegistrationRecordsArtifact(h, c, log.file, log.state, a, time);
  }

  lemma NewIsRegistered(h: Hasher, c: TL.Codec, log: LogFiles, a: TL.Artifact, time: int)
    requires TL.VerifyLog(h, c, log.file, log.state).Ok?
    requires !TL.HasIdentifier(TL.VerifyLog(h, c, log.file, log.state).value, a.artifactIdentifier)
    requires TL.RegisterEffect(h, c, log.file, log.state, a, time).result.Ok?
    ensures TL.RegisterEffect(h, c, log.file, log.state, a, time).result.value.registered
  {
    hide TL.VerifyLog, TL.HasIdentifier, TL.PlanRegistration;
  }

  /** The artifact of a valid transition is well formed unless its identifier is longer than an entry may carry. */
  lemma {:induction false} TransitionArtifactIsWellFormed(k: Scheme, t: Transition)
    requires ValidTransition(k, t)
    ensures var a := TransitionArtifact(k, t); TL.CanBeLogged(a) <==> |a.artifactIdentifier| <= 512
  {
    hide RootTransitionIdentifier;
  }

  // In a list without repeated identifiers, what a prefix answers the whole list answers too.
  lemma {:induction false} RequirePersists(es: seq<TL.Entry>, fs: seq<TL.Entry>, a: TL.Artifact)
    requires es <= fs && TL.DistinctIdentifiers(fs)
    requires TL.RequireEntry(es, a).Ok?
    ensures TL.RequireEntry(fs, a) == TL.RequireEntry(es, a)
  {
    var e := TL.FindEntry(es, a.artifactIdentifier).value;
    var i :| 0 <= i < |es| && es[i] == e;
    assert fs[i] == e;
    assert TL.HasIdentifier(fs, a.artifactIdentifier);
    var g := TL.FindEntry(fs, a.artifactIdentifier).value;
    var j :| 0 <= j < |fs| && fs[j] == g;
  }

  lemma {:induction false} LoggedTransitionsAgree(
    k: Scheme, es: seq<TL.Entry>, fs: seq<TL.Entry>, s: Transition, t: Transition)
    requires ValidTransition(k, s) && ValidTransition(k, t)
    requires s.previousRoot.epoch == t.previousRoot.epoch
    requires es <= fs && TL.DistinctIdentifiers(fs)
    requires TL.RequireEntry(es, TransitionArtifact(k, s)).Ok? && TL.RequireEntry(fs, TransitionArtifact(k, t)).Ok?
    ensures k.transitionDigest(s) == k.transitionDigest(t)
  {
    RequirePersists(es, fs, TransitionArtifact(k, s));
    hide TL.FindEntry, TL.DistinctIdentifiers;
  }

  function LogOf(w: LP.World): LogFiles {
    LogFiles(w.file, w.state)
  }

  /**
   Root states that share one log agree.  Take any run of the log with crashes, and two
   transitions, of whichever installations, that were found in the verified log at two moments
   of that run and step from the same epoch: they have the same digest.
   */
  lemma {:induction false} SharedLogAgreement(
    h: Hasher, c: TL.Codec, k: Scheme, worlds: seq<LP.World>, steps: seq<LP.Step>,
    i: nat, j: nat, s: Transition, t: Transition)
    requires TL.ValidCodec(c)
    requires LP.IsRun(h, c, worlds, steps) && LP.AllIdle(worlds[0])
    requires i <= |steps| && j <= |steps|
    requires IsLogged(h, c, k, LogOf(worlds[i]), s) && IsLogged(h, c, k, LogOf(worlds[j]), t)
    requires s.previousRoot.epoch == t.previousRoot.epoch
    ensures k.transitionDigest(s) == k.transitionDigest(t)
  {
    hide TL.VerifyLog, TL.RequireEntry, TL.ValidCodec, TL.Chained, LP.Perform;
    var a, b := LP.Verified(h, c, worlds[i]), LP.Verified(h, c, worlds[j]);
    ChainedDistinct(h, c, worlds[i]);
    ChainedDistinct(h, c, worlds[j]);
    if i <= j {
      LP.AcceptedLogOnlyGrows(h, c, worlds, steps, i, j);
      LoggedTransitionsAgree(k, a.value, b.value, s, t);
    } else {
      LP.AcceptedLogOnlyGrows(h, c, worlds, steps, j, i);
      LoggedTransitionsAgree(k, b.value, a.value, t, s);
    }
  }

  lemma ChainedDistinct(h: Hasher, c: TL.Codec, w: LP.World)
    requires TL.ValidCodec(c) && LP.Verified(h, c, w).Ok?
    ensures TL.DistinctIdentifiers(LP.Verified(h, c, w).value)
  {
    hide TL.VerifyLog, TL.ValidCodec;
    TL.VerifiedIsChained(h, c, w.file, w.state);
  }

  // ---------------------------------------------------------------- installations that share a log

  /** The log calls of the entry point: a whole registration, or a verification under the shared lock. */
  datatype LogCall = Registering(p: LP.Pid, begin: nat, end: nat) | Requiring(p: LP.Pid, moment: nat)

  /** What an installation does to its trust files; transitions go through the entry point only. */
  datatype Deed =
    | Local(op: Op)
    | Logged(files: TransitionFiles, at: int, namesManifest: bool, call: LogCall)

  function ModeOf(call: LogCall): LogMode {
    if call.Registering? then RegisterIfMissing else RequireExisting
  }

  /** The moment of the log's run at which the call finds the log. */
  function FoundAt(call: LogCall): nat {
    match call case Registering(_, begin, _) => begin case Requiring(_, moment) => moment
  }

  /** The moment at which it leaves the log. */
  function LeftAt(call: LogCall): nat {
    match call case Registering(_, _, end) => end case Requiring(_, moment) => moment
  }

  /** The trust files after one deed, or none if it fails and changes nothing. */
  function DeedEffect(
    h: Hasher, c: TL.Codec, k: Scheme, digest: Manifest -> Digest, worlds: seq<LP.World>, files: Files,
        d: Deed): Option<Files>
  {
    match d
    case Local(op) => if op.TransitionOp? then None else Effect(k, digest, files, op)
    case Logged(f, at, names, call) =>
      if FoundAt(call) >= |worlds| then None
      else
        match ApplyThroughLog(h, c, k, files, LogOf(worlds[FoundAt(call)]), f, at, names, ModeOf(call)).result
        case Ok(g) => Some(g)
        case Err(_) => None
  }

  /** The trust files of an installation after its first n deeds. */
  function Installed(
    h: Hasher, c: TL.Codec, k: Scheme, digest: Manifest -> Digest, worlds: seq<LP.World>, start: Files,
        deeds: seq<Deed>, n: nat): Files
    requires n <= |deeds|
  {
    if n == 0 then start
    else
      var before := Installed(h, c, k, digest, worlds, start, deeds, n - 1);
      match DeedEffect(h, c, k, digest, worlds, before, deeds[n - 1]) case Some(g) => g case None => before
  }

  /** The entry point gets as far as the log: the transition verifies against the current root. */
  predicate ReachesLog(k: Scheme, files: Files, f: TransitionFiles, at: int) {
    files.root.Some? && VerifyRootTransition(k, f, RootKeyOf(files.root.value), files.root.value.epoch, at).Ok?
  }

  /** The call is made in the run: its steps are there, for this transition's artifact. */
  ghost predicate CallInRun(
      k: Scheme, worlds: seq<LP.World>, steps: seq<LP.Step>, t: Transition, at: int, call: LogCall)
    requires |worlds| == |steps| + 1
  {
    match call
    case Registering(p, begin, end) => ValidTransition(k, t)
        && LR.Registers(steps, begin, end, p, TransitionArtifact(k, t), at)
    case Requiring(p, moment) => moment <= |steps| && LP.PhaseOf(worlds[moment], p).Reading?
  }

  /** Every log call of the installation that the entry point comes to make is made in the run. */
  ghost predicate CallsInRun(
    h: Hasher, c: TL.Codec, k: Scheme, digest: Manifest -> Digest, worlds: seq<LP.World>, steps: seq<LP.Step>,
    start: Files, deeds: seq<Deed>)
    requires |worlds| == |steps| + 1
  {
    forall n | 0 <= n < |deeds| && deeds[n].Logged? ::
      ReachesLog(k, Installed(h, c, k, digest, worlds, start, deeds, n), deeds[n].files, deeds[n].at) ==>
        CallInRun(k, worlds, steps, deeds[n].files.transition, deeds[n].at, deeds[n].call)
  }

  lemma LogAfterCall(
    h: Hasher, c: TL.Codec, k: Scheme, worlds: seq<LP.World>, steps: seq<LP.Step>, files: Files,
    f: TransitionFiles, at: int, names: bool, call: LogCall)
    requires LP.IsRun(h, c, worlds, steps) && LP.AllIdle(worlds[0])
    requires ReachesLog(k, files, f, at) && CallInRun(k, worlds, steps, f.transition, at, call)
    ensures FoundAt(call) <= |steps| && LeftAt(call) <= |steps|
    ensures ApplyThroughLog(h, c, k, files, LogOf(worlds[FoundAt(call)]), f, at, names, ModeOf(call)).log ==
            LogOf(worlds[LeftAt(call)])
  {
    hide TL.VerifyLog, TL.RegisterEffect, TL.RequireEntry, ApplyTransition, LP.Perform, LP.Enabled, LR.Registers;
    if call.Registering? {
      RegistersInRange(steps, call.begin, call.end, call.p, TransitionArtifact(k, f.transition), at);
      LR.RegistrationHasItsEffect(h, c, worlds, steps, call.begin, call.end, call.p,
          TransitionArtifact(k, f.transition), at);
    }
  }

  lemma RegistersInRange(steps: seq<LP.Step>, begin: nat, end: nat, p: LP.Pid, a: TL.Artifact, at: int)
    requires LR.Registers(steps, begin, end, p, a, at)
    ensures begin < end < |steps|
  {
  }

  lemma ReachedLog(
    h: Hasher, c: TL.Codec, k: Scheme, files: Files, log: LogFiles, f: TransitionFiles, at: int, names: bool,
        mode: LogMode)
    requires ApplyThroughLog(h, c, k, files, log, f, at, names, mode).result.Ok?
    ensures ReachesLog(k, files, f, at)
  {
    hide TL.VerifyLog, TL.RegisterEffect, TL.RequireEntry, ApplyTransition, VerifyRootTransition;
  }

  /** A transition an installation applied is in the verified log at the moment its call leaves the log. */
  lemma {:induction false} AppliedDeedIsLogged(
    h: Hasher, c: TL.Codec, k: Scheme, digest: Manifest -> Digest, worlds: seq<LP.World>, steps: seq<LP.Step>,
    start: Files, deeds: seq<Deed>, n: nat)
    requires TL.ValidCodec(c) && LP.IsRun(h, c, worlds, steps) && LP.AllIdle(worlds[0])
    requires CallsInRun(h, c, k, digest, worlds, steps, start, deeds)
    requires n < |deeds| && deeds[n].Logged?
    requires DeedEffect(h, c, k, digest, worlds, Installed(h, c, k, digest, worlds, start, deeds, n), deeds[n]).Some?
    ensures var before := Installed(h, c, k, digest, worlds, start, deeds, n);
            && LeftAt(deeds[n].call) <= |steps|
            && IsLogged(h, c, k, LogOf(worlds[LeftAt(deeds[n].call)]), deeds[n].files.transition)
            && before.root.Some? && deeds[n].files.transition.previousRoot.epoch == before.root.value.epoch
  {
    hide TL.ValidCodec, LP.Perform, LP.Enabled, IsLogged, ApplyThroughLog, ApplyTransition, ReachesLog, CallInRun,
        LP.AllIdle;
    var Logged(f, at, names, call) := deeds[n];
    var before := Installed(h, c, k, digest, worlds, start, deeds, n);
    var log := LogOf(worlds[FoundAt(call)]);
    ReachedLog(h, c, k, before, log, f, at, names, ModeOf(call));
    LogAfterCall(h, c, k, worlds, steps, before, f, at, names, call);
    AppliedMeansLogged(h, c, k, before, log, f, at, names, ModeOf(call));
    AppliesOnlyAtItsEpoch(k, before, f, at, names);
  }

  /**
   Two installations with one log, each applying transitions only through the entry point, in
   either mode, while both and any others use and crash on that log: at every epoch both step
   from, they apply transitions with the same digest.
   */
  lemma {:induction false} InstallationsAgree(
    h: Hasher, c: TL.Codec, k: Scheme, digest: Manifest -> Digest, worlds: seq<LP.World>, steps: seq<LP.Step>,
    start: Files, deeds: seq<Deed>, n: nat, start': Files, deeds': seq<Deed>, m: nat)
    requires TL.ValidCodec(c) && LP.IsRun(h, c, worlds, steps) && LP.AllIdle(worlds[0])
    requires CallsInRun(h, c, k, digest, worlds, steps, start, deeds)
    requires CallsInRun(h, c, k, digest, worlds, steps, start', deeds')
    requires n < |deeds| && deeds[n].Logged? && m < |deeds'| && deeds'[m].Logged?
    requires var files := Installed(h, c, k, digest, worlds, start, deeds, n);
             DeedEffect(h, c, k, digest, worlds, files, deeds[n]).Some?
    requires var files := Installed(h, c, k, digest, worlds, start', deeds', m);
             DeedEffect(h, c, k, digest, worlds, files, deeds'[m]).Some?
    requires var s, t := Installed(h, c, k, digest, worlds, start, deeds, n),
            Installed(h, c, k, digest, worlds, start', deeds', m);
             s.root.Some? && t.root.Some? && s.root.value.epoch == t.root.value.epoch
    ensures k.transitionDigest(deeds[n].files.transition) == k.transitionDigest(deeds'[m].files.transition)
  {
    hide TL.ValidCodec, LP.IsRun, LP.AllIdle, IsLogged, CallsInRun, Installed, DeedEffect;
    RunShape(h, c, worlds, steps);
    AppliedDeedIsLogged(h, c, k, digest, worlds, steps, start, deeds, n);
    AppliedDeedIsLogged(h, c, k, digest, worlds, steps, start', deeds', m);
    SharedLogAgreement(h, c, k, worlds, steps, LeftAt(deeds[n].call), LeftAt(deeds'[m].call),
                       deeds[n].files.transition, deeds'[m].files.transition);
  }

  lemma RunShape(h: Hasher, c: TL.Codec, worlds: seq<LP.World>, steps: seq<LP.Step>)
    requires LP.IsRun(h, c, worlds, steps)
    ensures |worlds| == |steps| + 1
  {
  }
}
