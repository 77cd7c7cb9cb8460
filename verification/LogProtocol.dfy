/**
 Many processes on one transparency log, step by step, with crashes.  register_verified_artifact
 and verify_transparency_log of app/transparency_log.py take a file lock, exclusive or shared;
 between their steps other processes run, and any process may die at any point, which frees
 its lock and may leave part of a line behind.
 */
module LogProtocol {
  import opened Wrappers
  import opened Hashing
  import opened TransparencyLog

  type Pid = nat

  /** How far a process is. All phases but Idle and Reading hold the exclusive lock. */
  datatype Phase =
    | Idle
    | Reading
    | Started(artifact: Artifact, recordedAt: int)
    | Planned(artifact: Artifact, recordedAt: int, entry: Entry, line: Bytes)
    | Appended(entry: Entry, recordedAt: int)
    | Finished

  datatype World = World(file: Option<Bytes>, state: Option<TipState>, phases: map<Pid, Phase>)

  datatype Step =
    | LockShared(p: Pid)
    | LockExclusive(p: Pid, artifact: Artifact, recordedAt: int)
    | Check(p: Pid)
    | Append(p: Pid)
    | TornAppend(p: Pid, written: nat)
    | ReplaceState(p: Pid)
    | Release(p: Pid)
    | Crash(p: Pid)

  function PhaseOf(w: World, p: Pid): Phase {
    if p in w.phases then w.phases[p] else Idle
  }

  predicate Exclusive(w: World, p: Pid) {
    !PhaseOf(w, p).Idle? && !PhaseOf(w, p).Reading?
  }

  ghost predicate NobodyElse(w: World, p: Pid) {
    forall q: Pid :: q != p ==> PhaseOf(w, q).Idle?
  }

  ghost predicate NoWriter(w: World) {
    forall q: Pid :: !Exclusive(w, q)
  }

  function SetPhase(w: World, p: Pid, phase: Phase): World {
    w.(phases := w.phases[p := phase])
  }

  function Verified(h: Hasher, c: Codec, w: World): Result<seq<Entry>, LogError> {
    VerifyLog(h, c, w.file, w.state)
  }

  /** The phase after the check under the lock: a planned line, or nothing left to do but unlock. */
  function AfterCheck(h: Hasher, c: Codec, w: World, a: Artifact, recordedAt: int): Phase {
    match Verified(h, c, w)
    case Err(_) => Finished
    case Ok(es) =>
      if HasIdentifier(es, a.artifactIdentifier) then Finished
      else
        match PlanRegistration(h, c, w.file, es, a, recordedAt)
        case Err(_) => Finished
        case Ok(line) => Planned(a, recordedAt, NextEntry(h, c, es, a, recordedAt), line)
  }

  ghost predicate Enabled(w: World, step: Step) {
    match step
    case LockShared(p) => PhaseOf(w, p).Idle? && NoWriter(w)
    case LockExclusive(p, _, _) => PhaseOf(w, p).Idle? && NobodyElse(w, p)
    case Check(p) => PhaseOf(w, p).Started?
    case Append(p) => PhaseOf(w, p).Planned?
    case TornAppend(p, written) => PhaseOf(w, p).Planned? && written <= |PhaseOf(w, p).line|
    case ReplaceState(p) => PhaseOf(w, p).Appended?
    case Release(p) => PhaseOf(w, p).Reading? || PhaseOf(w, p).Finished?
    case Crash(p) => !PhaseOf(w, p).Idle?
  }

  ghost function Perform(h: Hasher, c: Codec, w: World, step: Step): World
    requires Enabled(w, step)
  {
    match step
    case LockShared(p) => SetPhase(w, p, Reading)
    case LockExclusive(p, a, t) => SetPhase(w, p, Started(a, t))
    case Check(p) => SetPhase(w, p, AfterCheck(h, c, w, PhaseOf(w, p).artifact, PhaseOf(w, p).recordedAt))
    case Append(p) =>
      var Planned(_, t, e, line) := PhaseOf(w, p);
      SetPhase(w.(file := Some(Contents(w.file) + line)), p, Appended(e, t))
    case TornAppend(p, written) =>
      SetPhase(w.(file := Some(Contents(w.file) + PhaseOf(w, p).line[..written])), p, Idle)
    case ReplaceState(p) =>
      var Appended(e, t) := PhaseOf(w, p);
      SetPhase(w.(state := Some(TipOf(e, t))), p, Finished)
    case Release(p) => SetPhase(w, p, Idle)
    case Crash(p) => SetPhase(w, p, Idle)
  }

  // ---------------------------------------------------------------- the invariant

  /** What a process in the middle of a registration knows, when `accepted` is the last accepted log. */
  ghost predicate PhaseInvariant(h: Hasher, c: Codec, w: World, p: Pid, accepted: seq<Entry>) {
    match PhaseOf(w, p)
    case Planned(a, t, e, line) =>
      && Verified(h, c, w) == Ok(accepted)
      && !HasIdentifier(accepted, a.artifactIdentifier)
      && PlanRegistration(h, c, w.file, accepted, a, t) == Ok(line)
      && e == NextEntry(h, c, accepted, a, t)
    case Appended(e, t) =>
      && Verified(h, c, w).Err?
      && VerifyLog(h, c, w.file, Some(TipOf(e, t))) == Ok(accepted + [e])
    case _ => true
  }

  ghost predicate Invariant(h: Hasher, c: Codec, w: World, accepted: seq<Entry>) {
    && (forall p: Pid :: Exclusive(w, p) ==> NobodyElse(w, p))
    && (forall p: Pid :: PhaseInvariant(h, c, w, p, accepted))
    && (Verified(h, c, w).Ok? ==> Verified(h, c, w).value == accepted)
  }

  /** The last accepted log after a step: only replacing the state can change it, by one entry at its end. */
  ghost function NextAccepted(w: World, step: Step, accepted: seq<Entry>): seq<Entry>
    requires Enabled(w, step)
  {
    if step.ReplaceState? then accepted + [PhaseOf(w, step.p).entry] else accepted
  }

  lemma {:induction false} CheckRejectsTorn(h: Hasher, c: Codec, line: Bytes, written: nat, es: seq<Entry>)
    requires 0 < written < |line| && forall i | 0 <= i < |line| - 1 :: line[i] != NEWLINE
    ensures CheckLine(h, c, line[..written], es) == Err(Invalid)
  {
    var torn := line[..written];
    assert torn[|torn| - 1] == line[written - 1];
  }

  lemma EntryLineShape(c: Codec, e: Entry)
    requires ValidCodec(c)
    ensures var line := EntryLine(c, e); forall i | 0 <= i < |line| - 1 :: line[i] != NEWLINE
  {
    var line := EntryLine(c, e);
    assert forall i | 0 <= i < |line| - 1 :: line[i] == c.encode(e)[i];
  }

  lemma ScanOne(h: Hasher, c: Codec, raw: Bytes, es: seq<Entry>)
    requires CheckLine(h, c, raw, es).Err?
    ensures Scan(h, c, [raw], es).Err?
  {
    hide CheckLine;
    assert [raw][0] == raw;
  }

  lemma {:induction false} TornLineRefused(h: Hasher, c: Codec, prior: Bytes, line: Bytes, written: nat, es: seq<Entry>)
    requires EndsLine(prior) && Scan(h, c, RawLines(prior), []) == Ok(es)
    requires 0 < written < |line| && forall i | 0 <= i < |line| - 1 :: line[i] != NEWLINE
    ensures Scan(h, c, RawLines(prior + line[..written]), []).Err?
  {
    hide Scan, RawLines, CheckLine;
    var torn := line[..written];
    RawLinesOfOne(torn);
    RawLinesAppend(prior, torn);
    ScanAppend(h, c, RawLines(prior), [torn], []);
    CheckRejectsTorn(h, c, line, written, es);
    ScanOne(h, c, torn, es);
  }

  lemma ScanErrRefused(h: Hasher, c: Codec, b: Bytes, state: Option<TipState>)
    requires Scan(h, c, RawLines(b), []).Err?
    ensures VerifyLog(h, c, Some(b), state).Err?
  {
    hide Scan, RawLines;
  }

  // A log one entry longer than the state it is read with is refused.
  lemma {:induction false} UnrecordedEntryRefused(
    h: Hasher, c: Codec, file: Option<Bytes>, state: Option<TipState>, b: Bytes, e: Entry)
    requires ValidCodec(c)
    requires VerifyLog(h, c, file, state).Ok?
    requires Scan(h, c, RawLines(b), []) == Ok(VerifyLog(h, c, file, state).value + [e])
    ensures VerifyLog(h, c, Some(b), state).Err?
  {
    hide Scan, RawLines, ValidCodec, Chained;
    VerifiedIsChained(h, c, file, state);
  }

  /** An append without its state: refused, whether the line is whole or torn. */
  lemma {:induction false} PartialAppendRefused(
    h: Hasher, c: Codec, file: Option<Bytes>, state: Option<TipState>, a: Artifact, t: int, written: nat)
    requires ValidCodec(c)
    requires VerifyLog(h, c, file, state).Ok?
    requires var es := VerifyLog(h, c, file, state).value;
             && !HasIdentifier(es, a.artifactIdentifier)
             && PlanRegistration(h, c, file, es, a, t).Ok?
             && 0 < written <= |PlanRegistration(h, c, file, es, a, t).value|
    ensures var es := VerifyLog(h, c, file, state).value;
            VerifyLog(h, c, Some(Contents(file) + PlanRegistration(h, c, file, es, a, t).value[..written]), state).Err?
  {
    hide VerifyLog, Scan, RawLines, ValidCodec, WellFormedEntry, HasIdentifier, NextEntry;
    var es := VerifyLog(h, c, file, state).value;
    var e := NextEntry(h, c, es, a, t);
    var line := PlanRegistration(h, c, file, es, a, t).value;
    VerifiedFileEndsLine(h, c, file, state);
    VerifiedScan(h, c, file, state);
    if written == |line| {
      assert line[..written] == line;
      ScanOfAppended(h, c, Contents(file), es, a, t);
      UnrecordedEntryRefused(h, c, file, state, Contents(file) + line, e);
    } else {
      EntryLineShape(c, e);
      TornLineRefused(h, c, Contents(file), line, written, es);
      ScanErrRefused(h, c, Contents(file) + line[..written], state);
    }
  }

  lemma OnlyOneMoves(w: World, step: Step, q: Pid)
    requires Enabled(w, step) && q != step.p
    requires Exclusive(w, q) ==> NobodyElse(w, q)
    ensures !Exclusive(w, q)
  {
    assert NobodyElse(w, q) ==> PhaseOf(w, step.p).Idle?;
    assert step.LockExclusive? ==> PhaseOf(w, q).Idle?;
  }

  lemma {:induction false} StepKeepsLocks(h: Hasher, c: Codec, w: World, step: Step)
    requires Enabled(w, step)
    requires forall p: Pid :: Exclusive(w, p) ==> NobodyElse(w, p)
    ensures var w' := Perform(h, c, w, step); forall p: Pid :: Exclusive(w', p) ==> NobodyElse(w', p)
    ensures forall q: Pid :: q != step.p ==> PhaseOf(Perform(h, c, w, step), q) == PhaseOf(w, q)
  {
    hide AfterCheck, NextEntry;
    var w' := Perform(h, c, w, step);
    var p := step.p;
    assert forall q: Pid :: q != p ==> PhaseOf(w', q) == PhaseOf(w, q);
    forall q: Pid | q != p ensures !Exclusive(w', q) {
      OnlyOneMoves(w, step, q);
    }
    assert Exclusive(w', p) ==> NobodyElse(w, p);
  }

  /** Every step of every process keeps the invariant. */
  lemma {:induction false} StepKeepsInvariant(h: Hasher, c: Codec, w: World, step: Step, accepted: seq<Entry>)
    requires ValidCodec(c)
    requires Enabled(w, step)
    requires Invariant(h, c, w, accepted)
    ensures Invariant(h, c, Perform(h, c, w, step), NextAccepted(w, step, accepted))
  {
    hide VerifyLog, ValidCodec, PlanRegistration, HasIdentifier, NextEntry;
    var w' := Perform(h, c, w, step);
    var accepted' := NextAccepted(w, step, accepted);
    StepKeepsLocks(h, c, w, step);
    assert PhaseInvariant(h, c, w, step.p, accepted);
    if Exclusive(w, step.p) {
      assert NobodyElse(w, step.p);
    }
    match step {
      case Append(p) =>
        AppendKeeps(h, c, w, p, accepted);
      case TornAppend(p, written) =>
        TornAppendKeeps(h, c, w, p, written, accepted);
      case _ =>
    }
    forall q: Pid ensures PhaseInvariant(h, c, w', q, accepted') {
      assert PhaseInvariant(h, c, w, q, accepted);
    }
  }

  lemma {:induction false} AppendKeeps(h: Hasher, c: Codec, w: World, p: Pid, accepted: seq<Entry>)
    requires ValidCodec(c)
    requires PhaseOf(w, p).Planned? && PhaseInvariant(h, c, w, p, accepted)
    ensures var w' := Perform(h, c, w, Append(p));
            PhaseInvariant(h, c, w', p, accepted) && Verified(h, c, w').Err?
  {
    hide VerifyLog, ValidCodec, HasIdentifier, NextEntry;
    var Planned(a, t, _, line) := PhaseOf(w, p);
    AppendVerifies(h, c, w.file, w.state, a, t);
    PartialAppendRefused(h, c, w.file, w.state, a, t, |line|);
    assert line[..|line|] == line;
  }

  /** A torn append leaves the old tip when nothing reached an existing file, and a refused log otherwise. */
  lemma {:induction false} TornAppendKeeps(h: Hasher, c: Codec, w: World, p: Pid, written: nat, accepted: seq<Entry>)
    requires ValidCodec(c)
    requires PhaseOf(w, p).Planned? && PhaseInvariant(h, c, w, p, accepted)
    requires written <= |PhaseOf(w, p).line|
    ensures var v := Verified(h, c, Perform(h, c, w, TornAppend(p, written)));
            if written == 0 && w.file.Some? then v == Ok(accepted) else v.Err?
  {
    var Planned(a, t, _, line) := PhaseOf(w, p);
    if written > 0 {
      hide VerifyLog, ValidCodec, HasIdentifier, NextEntry;
      PartialAppendRefused(h, c, w.file, w.state, a, t, written);
    } else {
      assert Contents(w.file) + line[..0] == Contents(w.file);
    }
  }

  // ---------------------------------------------------------------- whole runs

  /** A run: every world follows from the one before by an enabled step of some process. */
  ghost predicate IsRun(h: Hasher, c: Codec, worlds: seq<World>, steps: seq<Step>) {
    && |worlds| == |steps| + 1
    && forall i | 0 <= i < |steps| :: Enabled(worlds[i], steps[i])
        && worlds[i + 1] == Perform(h, c, worlds[i], steps[i])
  }

  ghost predicate AllIdle(w: World) {
    forall p: Pid :: PhaseOf(w, p).Idle?
  }

  /** The last accepted log after the first n steps, when the run starts from `first`. */
  ghost function AcceptedAfter(
    h: Hasher, c: Codec, worlds: seq<World>, steps: seq<Step>, first: seq<Entry>, n: nat): seq<Entry>
    requires IsRun(h, c, worlds, steps) && n <= |steps|
  {
    if n == 0 then first
    else NextAccepted(worlds[n - 1], steps[n - 1], AcceptedAfter(h, c, worlds, steps, first, n - 1))
  }

  lemma {:induction false} RunKeepsInvariant(
    h: Hasher, c: Codec, worlds: seq<World>, steps: seq<Step>, first: seq<Entry>, n: nat)
    requires ValidCodec(c)
    requires IsRun(h, c, worlds, steps) && n <= |steps|
    requires Invariant(h, c, worlds[0], first)
    ensures Invariant(h, c, worlds[n], AcceptedAfter(h, c, worlds, steps, first, n))
  {
    hide Invariant, ValidCodec, Perform, Enabled;
    if n > 0 {
      RunKeepsInvariant(h, c, worlds, steps, first, n - 1);
      StepKeepsInvariant(h, c, worlds[n - 1], steps[n - 1], AcceptedAfter(h, c, worlds, steps, first, n - 1));
    }
  }

  lemma {:induction false} AcceptedGrows(
    h: Hasher, c: Codec, worlds: seq<World>, steps: seq<Step>, first: seq<Entry>, i: nat, j: nat)
    requires IsRun(h, c, worlds, steps) && i <= j <= |steps|
    ensures AcceptedAfter(h, c, worlds, steps, first, i) <= AcceptedAfter(h, c, worlds, steps, first, j)
    decreases j - i
  {
    hide Perform;
    if i < j {
      AcceptedGrows(h, c, worlds, steps, first, i, j - 1);
    }
  }

  lemma IdleWorldIsInvariant(h: Hasher, c: Codec, w: World, first: seq<Entry>)
    requires AllIdle(w)
    requires Verified(h, c, w).Ok? ==> Verified(h, c, w).value == first
    ensures Invariant(h, c, w, first)
  {
    hide VerifyLog;
  }

  /**
   Over all runs of all processes with crashes anywhere: between any two moments at which the
   log verifies it has only grown, by whole entries at its end.
   */
  lemma {:induction false} AcceptedLogOnlyGrows(
    h: Hasher, c: Codec, worlds: seq<World>, steps: seq<Step>, i: nat, j: nat)
    requires ValidCodec(c)
    requires IsRun(h, c, worlds, steps) && AllIdle(worlds[0])
    requires i <= j <= |steps|
    requires Verified(h, c, worlds[i]).Ok? && Verified(h, c, worlds[j]).Ok?
    ensures Verified(h, c, worlds[i]).value <= Verified(h, c, worlds[j]).value
  {
    hide VerifyLog, ValidCodec, Perform;
    var v := Verified(h, c, worlds[0]);
    var first := match v case Ok(es) => es case Err(_) => [];
    IdleWorldIsInvariant(h, c, worlds[0], first);
    RunKeepsInvariant(h, c, worlds, steps, first, i);
    RunKeepsInvariant(h, c, worlds, steps, first, j);
    AcceptedGrows(h, c, worlds, steps, first, i, j);
  }

  /** A log nobody will write to again: it does not verify and no registration is past its check. */
  ghost predicate Refused(h: Hasher, c: Codec, w: World) {
    && Verified(h, c, w).Err?
    && forall p: Pid :: !PhaseOf(w, p).Planned? && !PhaseOf(w, p).Appended?
  }

  /** Once refused, always refused: no later verification accepts and no later registration writes. */
  lemma {:induction false} RefusedForever(
    h: Hasher, c: Codec, worlds: seq<World>, steps: seq<Step>, i: nat, j: nat)
    requires IsRun(h, c, worlds, steps) && i <= j <= |steps|
    requires Refused(h, c, worlds[i])
    ensures Refused(h, c, worlds[j])
    ensures worlds[j].file == worlds[i].file && worlds[j].state == worlds[i].state
    decreases j - i
  {
    hide VerifyLog;
    if i < j {
      RefusedForever(h, c, worlds, steps, i, j - 1);
      RefusedStep(h, c, worlds[j - 1], steps[j - 1]);
    }
  }

  lemma {:induction false} RefusedStep(h: Hasher, c: Codec, w: World, step: Step)
    requires Enabled(w, step) && Refused(h, c, w)
    ensures Refused(h, c, Perform(h, c, w, step))
    ensures Perform(h, c, w, step).file == w.file && Perform(h, c, w, step).state == w.state
  {
    hide VerifyLog;
    var w' := Perform(h, c, w, step);
    assert !PhaseOf(w, step.p).Planned? && !PhaseOf(w, step.p).Appended?;
    forall q: Pid ensures !PhaseOf(w', q).Planned? && !PhaseOf(w', q).Appended? {
      assert !PhaseOf(w, q).Planned? && !PhaseOf(w, q).Appended?;
    }
  }

  /**
   A process that dies with the exclusive lock leaves a log that verifies at the last accepted
   tip, which is the new one if it had replaced the state, or a log that is refused for ever.
   A dying append leaves the tip exactly when it added no byte and created no file.
   */
  lemma {:induction false} CrashOutcome(h: Hasher, c: Codec, w: World, step: Step, accepted: seq<Entry>)
    requires ValidCodec(c)
    requires Invariant(h, c, w, accepted) && Enabled(w, step)
    requires step.Crash? || step.TornAppend?
    requires Exclusive(w, step.p)
    ensures var w' := Perform(h, c, w, step);
            && AllIdle(w')
            && (Verified(h, c, w') == Ok(accepted) || Refused(h, c, w'))
            && (Verified(h, c, w).Ok? ==>
                  (Refused(h, c, w') <==> step.TornAppend? && (step.written > 0 || w.file.None?)))
            && (PhaseOf(w, step.p).Appended? ==> Refused(h, c, w'))
  {
    hide VerifyLog, ValidCodec, PlanRegistration, HasIdentifier;
    assert PhaseInvariant(h, c, w, step.p, accepted);
    assert NobodyElse(w, step.p);
    var w' := Perform(h, c, w, step);
    forall q: Pid ensures PhaseOf(w', q).Idle? {
      assert q != step.p ==> PhaseOf(w', q) == PhaseOf(w, q);
    }
    if step.TornAppend? {
      TornAppendKeeps(h, c, w, step.p, step.written, accepted);
    } else {
      assert w'.file == w.file && w'.state == w.state;
    }
  }

  /** Whoever reads under the shared lock sees the last accepted log or a refused one, never a half-made change. */
  lemma {:induction false} ReaderSeesAccepted(h: Hasher, c: Codec, w: World, p: Pid, accepted: seq<Entry>)
    requires Invariant(h, c, w, accepted)
    requires PhaseOf(w, p).Reading?
    ensures Verified(h, c, w) == Ok(accepted) || Refused(h, c, w)
  {
    hide VerifyLog, PlanRegistration, HasIdentifier;
    forall q: Pid ensures !PhaseOf(w, q).Planned? && !PhaseOf(w, q).Appended? {
      assert Exclusive(w, q) ==> NobodyElse(w, q);
      assert NobodyElse(w, q) ==> q == p || PhaseOf(w, p).Idle?;
    }
  }
}
