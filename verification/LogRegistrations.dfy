/**
 A registration as steps among other processes.  register_verified_artifact of
 app/transparency_log.py locks, checks, appends, replaces the state and unlocks; whatever other
 processes do meanwhile, a registration that is not cut short has the effect on the two files
 that it has when it runs alone.
 */
module LogRegistrations {
  import opened Wrappers
  import opened Hashing
  import opened TransparencyLog
  import opened LogProtocol

  /** Process p unlocks, or dies. */
  predicate Ends(step: Step, p: Pid) {
    step.p == p && (step.Release? || step.Crash? || step.TornAppend?)
  }

  /** From the lock at `begin` to the unlock at `end`, one uninterrupted registration by p. */
  predicate Registers(steps: seq<Step>, begin: nat, end: nat, p: Pid, a: Artifact, recordedAt: int) {
    && begin < end < |steps|
    && steps[begin] == LockExclusive(p, a, recordedAt) && steps[end] == Release(p)
    && forall n | begin < n < end :: !Ends(steps[n], p)
  }

  /** How far the registration has come in world w that p began in world w0. */
  ghost predicate Progress(h: Hasher, c: Codec, w0: World, w: World, p: Pid, a: Artifact, recordedAt: int) {
    var whole := RegisterEffect(h, c, w0.file, w0.state, a, recordedAt);
    var planned := AfterCheck(h, c, w0, a, recordedAt);
    match PhaseOf(w, p)
    case Started(b, t) => b == a && t == recordedAt && w.file == w0.file && w.state == w0.state
    case Planned(_, _, _, _) => PhaseOf(w, p) == planned && w.file == w0.file && w.state == w0.state
    case Appended(e, t) =>
      planned.Planned? && e == planned.entry && t == recordedAt && w.file == whole.file && w.state == w0.state
    case Finished => w.file == whole.file && w.state == whole.state
    case _ => false
  }

  /** The lock is exclusive: while one process holds it all others are idle. */
  ghost predicate Locked(w: World) {
    forall p: Pid :: Exclusive(w, p) ==> NobodyElse(w, p)
  }

  lemma {:induction false} RunKeepsLocks(h: Hasher, c: Codec, worlds: seq<World>, steps: seq<Step>, n: nat)
    requires IsRun(h, c, worlds, steps) && n <= |steps| && AllIdle(worlds[0])
    ensures Locked(worlds[n])
  {
    hide Perform, Enabled;
    if n > 0 {
      RunKeepsLocks(h, c, worlds, steps, n - 1);
      StepKeepsLocks(h, c, worlds[n - 1], steps[n - 1]);
    }
  }

  // What the plan made after the check has to do with the whole effect.
  lemma PlanIsTheEffect(h: Hasher, c: Codec, w: World, a: Artifact, recordedAt: int)
    ensures var whole, planned := RegisterEffect(h, c, w.file, w.state, a, recordedAt),
            AfterCheck(h, c, w, a, recordedAt);
            match planned
            case Planned(b, t, e, line) =>
              && b == a && t == recordedAt
              && whole.file == Some(Contents(w.file) + line) && whole.state == Some(TipOf(e, recordedAt))
            case phase => phase.Finished? && whole.file == w.file && whole.state == w.state
  {
    hide VerifyLog, HasIdentifier, PlanRegistration, RequireEntry, NextEntry;
  }

  lemma {:induction false} StepProgresses(
      h: Hasher, c: Codec, w0: World, w: World, step: Step, p: Pid, a: Artifact, recordedAt: int)
    requires Locked(w) && Enabled(w, step) && !Ends(step, p)
    requires Progress(h, c, w0, w, p, a, recordedAt)
    ensures Progress(h, c, w0, Perform(h, c, w, step), p, a, recordedAt)
  {
    hide RegisterEffect, AfterCheck, NobodyElse;
    assert Exclusive(w, p);
    PlanIsTheEffect(h, c, w0, a, recordedAt);
    CheckAgrees(h, c, w0, w, a, recordedAt);
    if step.p != p { OnlyOneMoves(w, step, p); }
  }

  lemma CheckAgrees(h: Hasher, c: Codec, w0: World, w: World, a: Artifact, recordedAt: int)
    ensures w.file == w0.file && w.state == w0.state ==>
            AfterCheck(h, c, w, a, recordedAt) == AfterCheck(h, c, w0, a, recordedAt)
  {
    hide VerifyLog, HasIdentifier, PlanRegistration, NextEntry;
  }

  lemma {:induction false} RegistrationProgresses(
    h: Hasher, c: Codec, worlds: seq<World>, steps: seq<Step>, begin: nat, end: nat, p: Pid, a: Artifact,
        recordedAt: int, n: nat)
    requires IsRun(h, c, worlds, steps) && AllIdle(worlds[0])
    requires Registers(steps, begin, end, p, a, recordedAt) && begin < n <= end
    ensures Progress(h, c, worlds[begin], worlds[n], p, a, recordedAt)
    decreases n
  {
    if n == begin + 1 {
      hide RegisterEffect, AfterCheck;
      assert Enabled(worlds[begin], steps[begin]);
    } else {
      hide Progress, Perform, Enabled;
      RegistrationProgresses(h, c, worlds, steps, begin, end, p, a, recordedAt, n - 1);
      RunKeepsLocks(h, c, worlds, steps, n - 1);
      StepProgresses(h, c, worlds[begin], worlds[n - 1], steps[n - 1], p, a, recordedAt);
    }
  }

  /**
   In any run, between its lock and its unlock an uninterrupted registration turns the files it
   found into exactly those of the undisturbed registration.
   */
  lemma {:induction false} RegistrationHasItsEffect(
    h: Hasher, c: Codec, worlds: seq<World>, steps: seq<Step>, begin: nat, end: nat, p: Pid, a: Artifact,
        recordedAt: int)
    requires IsRun(h, c, worlds, steps) && AllIdle(worlds[0])
    requires Registers(steps, begin, end, p, a, recordedAt)
    ensures var whole := RegisterEffect(h, c, worlds[begin].file, worlds[begin].state, a, recordedAt);
            worlds[end].file == whole.file && worlds[end].state == whole.state
  {
    hide RegisterEffect, AfterCheck;
    RegistrationProgresses(h, c, worlds, steps, begin, end, p, a, recordedAt, end);
    assert Enabled(worlds[end], steps[end]);
  }

  // ---------------------------------------------------------------- an undisturbed registration

  lemma RunGoesOn(h: Hasher, c: Codec, worlds: seq<World>, steps: seq<Step>, step: Step)
    requires IsRun(h, c, worlds, steps) && Enabled(worlds[|steps|], step)
    ensures IsRun(h, c, worlds + [Perform(h, c, worlds[|steps|], step)], steps + [step])
  {
    hide Enabled, Perform;
  }

  // From the lock on: check, append and replace the state if there is something to append, and unlock.
  lemma {:induction false} RestRuns(
    h: Hasher, c: Codec, worlds: seq<World>, steps: seq<Step>, p: Pid) returns (more: seq<World>, rest: seq<Step>)
    requires IsRun(h, c, worlds, steps) && PhaseOf(worlds[|steps|], p).Started? && NobodyElse(worlds[|steps|], p)
    ensures IsRun(h, c, worlds + more, steps + rest) && |rest| >= 2
    ensures more != [] && (worlds + more)[|steps| + |rest|] == more[|more| - 1] && AllIdle(more[|more| - 1])
    ensures rest[|rest| - 1] == Release(p) && forall n | 0 <= n < |rest| - 1 :: !Ends(rest[n], p)
    ensures (worlds + more)[|steps| + |rest|].file == (worlds + more)[|steps| + |rest| - 1].file
    ensures (worlds + more)[|steps| + |rest|].state == (worlds + more)[|steps| + |rest| - 1].state
  {
    hide IsRun, AfterCheck;
    RunShape(h, c, worlds, steps);
    var w := worlds[|steps|];
    CheckPlansOrFinishes(h, c, worlds[|steps|], p);
    var checked := Perform(h, c, w, Check(p));
    RunGoesOn(h, c, worlds, steps, Check(p));
    assert forall q: Pid | q != p :: PhaseOf(w, q).Idle?;
    if PhaseOf(checked, p).Planned? {
      var appended := Perform(h, c, checked, Append(p));
      RunGoesOn(h, c, worlds + [checked], steps + [Check(p)], Append(p));
      var replaced := Perform(h, c, appended, ReplaceState(p));
      RunGoesOn(h, c, worlds + [checked] + [appended], steps + [Check(p)] + [Append(p)], ReplaceState(p));
      var released := Perform(h, c, replaced, Release(p));
      RunGoesOn(h, c, worlds + [checked] + [appended] + [replaced],
                steps + [Check(p)] + [Append(p)] + [ReplaceState(p)], Release(p));
      more, rest := [checked, appended, replaced, released], [Check(p), Append(p), ReplaceState(p), Release(p)];
      forall q: Pid ensures PhaseOf(released, q).Idle? { assert q != p ==> PhaseOf(w, q).Idle?; }
      assert worlds + more == worlds + [checked] + [appended] + [replaced] + [released];
      assert steps + rest == steps + [Check(p)] + [Append(p)] + [ReplaceState(p)] + [Release(p)];
    } else {
      var released := Perform(h, c, checked, Release(p));
      RunGoesOn(h, c, worlds + [checked], steps + [Check(p)], Release(p));
      more, rest := [checked, released], [Check(p), Release(p)];
      forall q: Pid ensures PhaseOf(released, q).Idle? { assert q != p ==> PhaseOf(w, q).Idle?; }
      assert worlds + more == worlds + [checked] + [released] && steps + rest == steps + [Check(p)] + [Release(p)];
    }
  }

  lemma CheckPlansOrFinishes(h: Hasher, c: Codec, w: World, p: Pid)
    requires PhaseOf(w, p).Started?
    ensures var phase := PhaseOf(Perform(h, c, w, Check(p)), p); phase.Planned? || phase.Finished?
  {
    hide VerifyLog, PlanRegistration, HasIdentifier;
  }

  lemma RunShape(h: Hasher, c: Codec, worlds: seq<World>, steps: seq<Step>)
    requires IsRun(h, c, worlds, steps)
    ensures |worlds| == |steps| + 1
  {
  }

  /**
   None of this speaks of steps that are never taken: in any world in which all processes are
   idle any process can run any registration from lock to unlock, and that leaves all idle and
   the files changed as specified.
   */
  lemma {:induction false} RegistrationIsPossible(
    h: Hasher, c: Codec, w: World, p: Pid, a: Artifact, recordedAt: int) returns (worlds: seq<World>, steps: seq<Step>)
    requires AllIdle(w)
    ensures IsRun(h, c, worlds, steps) && worlds[0] == w && AllIdle(worlds[|steps|])
    ensures |steps| >= 2 && Registers(steps, 0, |steps| - 1, p, a, recordedAt)
    ensures var whole := RegisterEffect(h, c, w.file, w.state, a, recordedAt);
            worlds[|steps|].file == whole.file && worlds[|steps|].state == whole.state
  {
    hide RegisterEffect, AfterCheck;
    var begin := LockExclusive(p, a, recordedAt);
    var locked := Perform(h, c, w, begin);
    assert IsRun(h, c, [w], []);
    RunGoesOn(h, c, [w], [], begin);
    assert [w] + [locked] == [w, locked] && [] + [begin] == [begin];
    assert NobodyElse(locked, p) by {
      forall q: Pid | q != p ensures PhaseOf(locked, q).Idle? { assert PhaseOf(w, q).Idle?; }
    }
    var more, rest := RestRuns(h, c, [w, locked], [begin], p);
    worlds, steps := [w, locked] + more, [begin] + rest;
    hide IsRun, Perform;
    RegistrationHasItsEffect(h, c, worlds, steps, 0, |steps| - 1, p, a, recordedAt);
  }

  /** Readers share the lock and keep writers out; each of them can unlock. */
  lemma ReadersShare(h: Hasher, c: Codec, w: World, p: Pid, q: Pid, a: Artifact, recordedAt: int)
    requires AllIdle(w) && p != q
    ensures Enabled(w, LockShared(p))
    ensures var reading := Perform(h, c, w, LockShared(p));
            && Enabled(reading, LockShared(q)) && !Enabled(reading, LockExclusive(q, a, recordedAt))
            && Enabled(reading, Release(p)) && AllIdle(Perform(h, c, reading, Release(p)))
  {
    var reading := Perform(h, c, w, LockShared(p));
    assert PhaseOf(reading, p) == Reading;
    forall r: Pid | r != p ensures PhaseOf(reading, r).Idle? { assert PhaseOf(w, r).Idle?; }
    var released := Perform(h, c, reading, Release(p));
    forall r: Pid ensures PhaseOf(released, r).Idle? { assert r != p ==> PhaseOf(reading, r).Idle?; }
  }
}
