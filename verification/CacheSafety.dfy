/**
 What an executed prune guarantees: an exact account of its deletions under any interference
 and failure, and only unchanged entries deleted while the lock excludes writers
 (app/persistent_cache_maintenance.py).
 */
module CacheSafety {
  import opened Wrappers
  import opened Ordering
  import opened CacheInventory
  import opened CachePruning
  import opened CacheExecution

  // ---------------------------------------------------------------- the account of a run

  lemma {:induction false} DeletedItemsOfNext(items: seq<Item>, item: Item)
    ensures DeletedItems(items + [item]) == DeletedItems(items) + if item.outcome.Deleted? then [item] else []
  {
    FilterOfNext(WasDeleted, items, item);
  }

  predicate FollowsPlan(plan: PrunePlan, items: seq<Item>) {
    && |items| <= |plan.candidates|
    && forall k | 0 <= k < |items| :: items[k] == ItemOf(plan.candidates[k], items[k].outcome)
  }

  /** The items report as deleted exactly the files that were unlinked, in order. */
  predicate ReportsUnlinked(items: seq<Item>, unlinked: seq<Target>) {
    && |DeletedItems(items)| == |unlinked|
    && forall k | 0 <= k < |unlinked| :: DeletedItems(items)[k].filename == unlinked[k].name
  }

  lemma {:induction false} StepReports(s: Surroundings, check: Validity, i: nat, c: EntryInfo, dir: Directory)
    ensures var step := ExecuteOne(s, check, i, c, dir);
            match step.item
            case Err(_) => step.unlinked == []
            case Ok(item) =>
              && item == ItemOf(c, item.outcome)
              && (if item.outcome.Deleted? then |step.unlinked| == 1 && step.unlinked[0].name == c.filename
                  else step.unlinked == [])
  {
    hide Revalidate;
  }

  lemma {:induction false} RunReports(s: Surroundings, check: Validity, plan: PrunePlan, dir: Directory, n: nat)
    requires n <= |plan.candidates|
    ensures var run := RunTo(s, check, plan, dir, n);
            && FollowsPlan(plan, run.items) && ReportsUnlinked(run.items, run.unlinked)
            && (if run.failed.None? then |run.items| == n else |run.items| < n)
  {
    hide ExecuteOne, LockStep, DeletedItems, Without, RunTo, DistinctNames;
    if n == 0 {
      NothingDeleted();
      RunToNothing(s, check, plan, dir);
    } else {
      RunToStep(s, check, plan, dir, n - 1);
      RunReports(s, check, plan, dir, n - 1);
      var before := RunTo(s, check, plan, dir, n - 1);
      if before.failed.None? {
        var c, i := plan.candidates[n - 1], n - 1;
        var d := LockStep(s, plan.kind, i, c, before.dir).dir;
        StepReports(s, check, i, c, d);
        var item := ExecuteOne(s, check, i, c, d).item;
        if item.Ok? { DeletedItemsOfNext(before.items, item.value); }
      }
    }
  }

  lemma RunToNothing(s: Surroundings, check: Validity, plan: PrunePlan, dir: Directory)
    ensures RunTo(s, check, plan, dir, 0) == Run(dir, [], [], None)
  {
  }

  lemma NothingDeleted()
    ensures DeletedItems([]) == []
  {
  }

  function PlannedBytes(items: seq<Item>): nat {
    if items == [] then 0 else items[0].plannedBytes + PlannedBytes(items[1..])
  }

  lemma {:induction false} ItemBytes(candidates: seq<EntryInfo>, items: seq<Item>)
    requires |items| <= |candidates| && forall k | 0 <= k < |items| ::
            items[k] == ItemOf(candidates[k], items[k].outcome)
    ensures PlannedBytes(items) == EntryBytes(candidates[..|items|])
    ensures DeletedBytes(DeletedItems(items)) == DeletedBytes(items)
  {
    if items != [] {
      ItemBytes(candidates[1..], items[1..]);
      assert candidates[..|items|][1..] == candidates[1..][..|items| - 1];
      var rest := DeletedItems(items[1..]);
      if items[0].outcome.Deleted? {
        assert DeletedItems(items) == [items[0]] + rest && ([items[0]] + rest)[1..] == rest;
      } else {
        assert DeletedItems(items) == rest;
      }
    }
  }

  /** CachePruneResult.validate_result. */
  predicate SchemaAcceptsResult(plan: PrunePlan, r: PruneResult) {
    && |r.items| == r.plannedCount
    && PlannedBytes(r.items) == r.plannedBytes
    && (forall k | 0 <= k < |r.items| :: r.items[k].kind == plan.kind)
    && |DeletedItems(r.items)| == r.deletedCount
    && DeletedBytes(DeletedItems(r.items)) == r.deletedBytes
    && r.skippedCount == r.plannedCount - r.deletedCount
  }

  /**
   Whatever happens to the directory and whichever call fails: a result has one item per
   candidate in plan order, deleted and skipped add up to planned, and both a result and a
   raised error list exactly the files this call unlinked.
   */
  lemma {:induction false} PruneAccounts(s: Surroundings, check: Validity, plan: PrunePlan, dir: Directory)
    requires SchemaAccepts(plan)
    ensures var run := RunTo(s, check, plan, dir, |plan.candidates|);
            match Conclude(s, plan, run)
            case Ok(r) =>
              && FollowsPlan(plan, r.items) && ReportsUnlinked(r.items, run.unlinked)
              && SchemaAcceptsResult(plan, r)
              && r.deletedCount + r.skippedCount == plan.selectedCount
            case Err(f) =>
              && FollowsPlan(plan, f.items) && ReportsUnlinked(f.items, run.unlinked)
              && f.deletedCount == |run.unlinked|
  {
    hide RunTo, DeletedItems, EntryBytes, DeletedBytes, PlannedBytes, EntryLe, Sort;
    var n := |plan.candidates|;
    var run := RunTo(s, check, plan, dir, n);
    RunReports(s, check, plan, dir, n);
    ItemBytes(plan.candidates, run.items);
    assert plan.candidates[..n] == plan.candidates;
  }

  // ---------------------------------------------------------------- what a step decides

  /** What the calls of one step find under the name: at lstat, open, the second lstat and unlink. */
  datatype Views = Views(listed: Option<File>, open: Option<File>, relisted: Option<File>, left: Option<File>)

  function ViewsOf(s: Surroundings, i: nat, c: EntryInfo, dir: Directory): Views {
    var atStat := s.act(i, AtStat, dir);
    var atOpen := s.act(i, AtOpen, atStat);
    var atRestat := s.act(i, AtRestat, s.act(i, AtRead, atOpen));
    Views(Find(atStat, c.filename), Find(atOpen, c.filename), Find(atRestat, c.filename),
          Find(s.act(i, AtUnlink, atRestat), c.filename))
  }

  /** A regular file of the planned size and time. */
  predicate IsPlanned(found: Option<File>, c: EntryInfo) {
    && found.Some? && found.value.fileType == Regular
    && found.value.size == c.sizeBytes && found.value.mtimeNs == c.mtimeNs
  }

  predicate IsSpecial(found: Option<File>) {
    found.Some? && found.value.fileType != Regular
  }

  /** How far a step gets: past the first lstat, the open, the read and the second lstat. */
  predicate PastStat(s: Surroundings, i: nat, c: EntryInfo, v: Views) {
    !s.fails(i, AtStat) && IsPlanned(v.listed, c)
  }

  predicate PastOpen(s: Surroundings, i: nat, c: EntryInfo, v: Views) {
    && PastStat(s, i, c, v) && !s.fails(i, AtOpen)
    && IsPlanned(v.open, c) && v.open.value.inode == v.listed.value.inode
  }

  /** All planned bytes were read. */
  predicate PastRead(s: Surroundings, i: nat, c: EntryInfo, v: Views) {
    && PastOpen(s, i, c, v)
    && (c.sizeBytes == 0 || !s.fails(i, AtRead)) && c.sizeBytes <= |v.open.value.content|
  }

  predicate PassesCheck(s: Surroundings, check: Validity, i: nat, c: EntryInfo, v: Views) {
    PastRead(s, i, c, v) && check(c.kind, v.open.value.content[..c.sizeBytes], c.entryKey)
  }

  predicate PastRestat(s: Surroundings, check: Validity, i: nat, c: EntryInfo, v: Views) {
    && PassesCheck(s, check, i, c, v) && !s.fails(i, AtRestat)
    && IsPlanned(v.relisted, c) && v.relisted.value.inode == v.open.value.inode
  }

  /**
   What a step does, by what it sees.  It deletes exactly when no call fails, all three looks show
   one and the same regular file of the planned size and time, its bytes are a valid entry, and
   something that is no folder is left under the name to unlink.  It fails, or reports the entry
   absent, stale or invalid, exactly when the first look that differs says so.
   */
  lemma {:induction false} StepDecides(s: Surroundings, check: Validity, i: nat, c: EntryInfo, dir: Directory)
    ensures var v, item := ViewsOf(s, i, c, dir), ExecuteOne(s, check, i, c, dir).item;
            var restated := PassesCheck(s, check, i, c, v) && !s.fails(i, AtRestat);
            var past := PastRestat(s, check, i, c, v);
            && (item == Ok(Item(c.kind, c.filename, c.entryKey, c.sizeBytes, Deleted, c.sizeBytes)) <==>
                  past && !s.fails(i, AtUnlink) && v.left.Some? && v.left.value.fileType != Folder)
            && (item == Err(CallFailed) <==>
                  || s.fails(i, AtStat)
                  || (PastStat(s, i, c, v) && s.fails(i, AtOpen))
                  || (PastOpen(s, i, c, v) && c.sizeBytes > 0 && s.fails(i, AtRead))
                  || (PassesCheck(s, check, i, c, v) && s.fails(i, AtRestat))
                  || (past && (s.fails(i, AtUnlink) || (v.left.Some? && v.left.value.fileType == Folder))))
            && (item == Err(UnsafeCandidate) <==>
                  || (!s.fails(i, AtStat) && IsSpecial(v.listed))
                  || (PastStat(s, i, c, v) && !s.fails(i, AtOpen) && IsSpecial(v.open))
                  || (restated && IsSpecial(v.relisted)))
            && (item == Ok(Item(c.kind, c.filename, c.entryKey, c.sizeBytes, AlreadyAbsent, 0)) <==>
                  || (!s.fails(i, AtStat) && v.listed == None)
                  || (PastStat(s, i, c, v) && !s.fails(i, AtOpen) && v.open == None)
                  || (restated && v.relisted == None)
                  || (past && !s.fails(i, AtUnlink) && v.left == None))
            && (item == Ok(Item(c.kind, c.filename, c.entryKey, c.sizeBytes, Invalid, 0)) <==>
                  PastRead(s, i, c, v) && !PassesCheck(s, check, i, c, v))
            && (item.Ok? || item.error in {CallFailed, UnsafeCandidate})
            && (item.Ok? && item.value.outcome == Deleted ==>
                  ExecuteOne(s, check, i, c, dir).unlinked == [Target(c.filename, v.left.value)])
            && (item.Ok? ==>
                  item.value.kind == c.kind && item.value.filename == c.filename && item.value.entryKey == c.entryKey
                  && item.value.plannedBytes == c.sizeBytes
                  && item.value.deletedBytes == if item.value.outcome == Deleted then c.sizeBytes else 0)
  {
    hide Find, Without, DistinctNames;
  }

  // ---------------------------------------------------------------- the locks

  /** The lock that candidate i is handled under was taken by this call, at this step. */
  predicate LockTaken(s: Surroundings, kind: CacheKind, i: nat, c: EntryInfo, dir: Directory) {
    var name := if kind == Embedding then ".embedding-cache.lock" else "." + c.entryKey + ".lock";
    && !s.fails(i, AtLockOpen) && !s.fails(i, AtLockWait)
    && !IsSpecial(Find(s.act(i, AtLockOpen, dir), name))
  }

  /** The embedding lock is taken once, before the first candidate; the lock of a parsed entry before that entry. */
  lemma {:induction false} LockIsTakenWhenDue(s: Surroundings, kind: CacheKind, i: nat, c: EntryInfo, dir: Directory)
    ensures LockStep(s, kind, i, c, dir).held <==> (kind == Embedding && i > 0) || LockTaken(s, kind, i, c, dir)
    ensures kind == Embedding && i > 0 ==> LockStep(s, kind, i, c, dir).dir == dir
  {
    hide Find, DistinctNames;
  }

  /** How a run stands before candidate i. */
  function Before(s: Surroundings, check: Validity, plan: PrunePlan, dir: Directory, i: nat): Directory
    requires i <= |plan.candidates|
  {
    RunTo(s, check, plan, dir, i).dir
  }

  /**
   A prune that gets as far as candidate n has handled every one before it under its lock: the
   one embedding lock, taken before the first, or the lock of that very parsed entry.
   */
  lemma {:induction false} HandledUnderLock(
    s: Surroundings, check: Validity, plan: PrunePlan, dir: Directory, n: nat, i: nat)
    requires i < n <= |plan.candidates| && RunTo(s, check, plan, dir, n).failed == None
    ensures plan.kind == Parsed ==>
              LockTaken(s, plan.kind, i, plan.candidates[i], Before(s, check, plan, dir, i))
    ensures plan.kind == Embedding ==> LockTaken(s, plan.kind, 0, plan.candidates[0], dir)
  {
    hide RunTo, ExecuteOne, LockStep, LockTaken;
    RunToStep(s, check, plan, dir, n - 1);
    if i < n - 1 {
      HandledUnderLock(s, check, plan, dir, n - 1, i);
    } else {
      LockIsTakenWhenDue(s, plan.kind, i, plan.candidates[i], Before(s, check, plan, dir, i));
      if i > 0 { HandledUnderLock(s, check, plan, dir, n - 1, i - 1); }
    }
  }

  /**
   A prune returns a result exactly when every candidate was handled and, if anything was
   unlinked, the directory could be synchronised; otherwise it raises the failure of the
   synchronisation, or else that of the step that ended it.
   */
  lemma {:induction false} PruneReturnsIffAllHandled(s: Surroundings, check: Validity, plan: PrunePlan, dir: Directory)
    ensures var run := RunTo(s, check, plan, dir, |plan.candidates|);
            var unsynced, r := run.unlinked != [] && !s.syncs, Conclude(s, plan, run);
            && (r.Ok? <==> run.failed == None && !unsynced)
            && (r.Err? ==> r.error.error == (if unsynced then SyncFailed else run.failed.value)
                           && r.error.items == run.items)
            && (r.Ok? ==> r.value.items == run.items && |run.items| == |plan.candidates|)
  {
    hide RunTo, DeletedItems, DeletedBytes;
    RunReports(s, check, plan, dir, |plan.candidates|);
  }

  // ---------------------------------------------------------------- under the lock

  /** While candidate i is handled, nobody else touches the file of c. */
  ghost predicate Protected(s: Surroundings, i: nat, c: EntryInfo) {
    forall p, d: Directory | p != AtLockOpen
        && p != AtLockWait :: Find(s.act(i, p, d), c.filename) == Find(d, c.filename)
  }

  /** The cache lock held during a step excludes writers of the entry it handles. */
  ghost predicate LockExcludes(s: Surroundings, plan: PrunePlan) {
    forall i | 0 <= i < |plan.candidates| :: Protected(s, i, plan.candidates[i])
  }

  /** The file is a regular one with the planned size and time, and holds a valid entry of the planned key. */
  predicate AsPlanned(t: Target, c: EntryInfo, check: Validity) {
    t.name == c.filename && t.file.fileType.Regular? && Matches(t.file, c) && HoldsEntry(t.file, c, check)
  }

  lemma {:induction false} ProtectedStep(s: Surroundings, check: Validity, i: nat, c: EntryInfo, dir: Directory)
    requires Protected(s, i, c)
    ensures var step := ExecuteOne(s, check, i, c, dir);
            forall t | t in step.unlinked :: AsPlanned(t, c, check) && Find(dir, c.filename) == Some(t.file)
  {
    hide Find, Without, DistinctNames;
    var d0 := s.act(i, AtStat, dir);
    var d1 := s.act(i, AtOpen, d0);
    var d2 := s.act(i, AtRead, d1);
    var d3 := s.act(i, AtRestat, d2);
    var d4 := s.act(i, AtUnlink, d3);
    assert Find(d4, c.filename) == Find(d3, c.filename) == Find(d2, c.filename) == Find(d1, c.filename)
        == Find(d0, c.filename) == Find(dir, c.filename);
  }

  /** No system call of step i fails. */
  ghost predicate NoCallFails(s: Surroundings, i: nat) {
    forall p :: !s.fails(i, p)
  }

  /** What one look at the entry would decide. */
  function DecisionOn(found: Option<File>, c: EntryInfo, check: Validity): Result<Outcome, PruneError> {
    match found
    case None => Ok(AlreadyAbsent)
    case Some(f) =>
      if !f.fileType.Regular? then Err(UnsafeCandidate)
      else if f.size != c.sizeBytes || f.mtimeNs != c.mtimeNs || |f.content| < c.sizeBytes then Ok(Stale)
      else if check(c.kind, f.content[..c.sizeBytes], c.entryKey) then Ok(Deleted)
      else Ok(Invalid)
  }

  /**
   Under the lock the four looks at the entry, with others at work on the rest of the directory
   in between, amount to one: the outcome is that of a single look at the start, and the entry
   is gone afterwards exactly when it was absent or is reported deleted.
   */
  lemma {:induction false} LockedStepIsAtomic(s: Surroundings, check: Validity, i: nat, c: EntryInfo, dir: Directory)
    requires Protected(s, i, c) && NoCallFails(s, i)
    ensures var step, decision := ExecuteOne(s, check, i, c, dir), DecisionOn(Find(dir, c.filename), c, check);
            && step.item == (match decision case Ok(outcome) => Ok(ItemOf(c, outcome)) case Err(e) => Err(e))
            && Find(step.dir, c.filename) == if decision == Ok(Deleted) then None else Find(dir, c.filename)
  {
    hide Find, Without, DistinctNames;
    var d0 := s.act(i, AtStat, dir);
    var d1 := s.act(i, AtOpen, d0);
    var d2 := s.act(i, AtRead, d1);
    var d3 := s.act(i, AtRestat, d2);
    var d4 := s.act(i, AtUnlink, d3);
    assert Find(d4, c.filename) == Find(d3, c.filename) == Find(d2, c.filename) == Find(d1, c.filename)
        == Find(d0, c.filename) == Find(dir, c.filename);
    FindWithout(d4, {c.filename}, c.filename);
  }

  function UnlinkedBytes(unlinked: seq<Target>): nat {
    if unlinked == [] then 0 else UnlinkedBytes(unlinked[..|unlinked| - 1]) + unlinked[|unlinked| - 1].file.size
  }

  lemma {:induction false} DeletedBytesOfNext(items: seq<Item>, item: Item)
    ensures DeletedBytes(items + [item]) == DeletedBytes(items) + item.deletedBytes
  {
    if items != [] {
      DeletedBytesOfNext(items[1..], item);
      assert (items + [item])[1..] == items[1..] + [item];
    }
  }

  lemma {:induction false} UnlinkedBytesOfNext(unlinked: seq<Target>, t: Target)
    ensures UnlinkedBytes(unlinked + [t]) == UnlinkedBytes(unlinked) + t.file.size
  {
    assert (unlinked + [t])[..|unlinked|] == unlinked;
  }

  /**
   With the lock excluding writers of the locked entry, every file deleted was as planned and
   valid, and the bytes reported as deleted are the bytes of the deleted files.
   */
  lemma {:induction false} DeletedFilesWereUnchanged(
      s: Surroundings, check: Validity, plan: PrunePlan, dir: Directory, n: nat)
    requires LockExcludes(s, plan) && n <= |plan.candidates|
    ensures var run := RunTo(s, check, plan, dir, n);
            && (forall t | t in run.unlinked :: exists i | 0 <= i < n :: AsPlanned(t, plan.candidates[i], check))
            && DeletedBytes(run.items) == UnlinkedBytes(run.unlinked)
  {
    hide ExecuteOne, LockStep, DeletedBytes, UnlinkedBytes, Protected, HoldsEntry, DistinctNames, Find;
    if n == 0 {
      NoBytes();
    } else {
      DeletedFilesWereUnchanged(s, check, plan, dir, n - 1);
      var before := RunTo(s, check, plan, dir, n - 1);
      var c, i := plan.candidates[n - 1], n - 1;
      if before.failed.None? {
        var d := LockStep(s, plan.kind, i, c, before.dir).dir;
        var step := ExecuteOne(s, check, i, c, d);
        StepReports(s, check, i, c, d);
        ProtectedStep(s, check, i, c, d);
        assert step.unlinked == [] || (step.unlinked == [step.unlinked[0]] && step.unlinked[0] in step.unlinked);
        assert before.unlinked + [] == before.unlinked;
        if step.item.Ok? { DeletedBytesOfNext(before.items, step.item.value); }
        if step.unlinked != [] { UnlinkedBytesOfNext(before.unlinked, step.unlinked[0]); }
      }
    }
  }

  lemma NoBytes()
    ensures DeletedBytes([]) == 0 && UnlinkedBytes([]) == 0
  {
  }

  // ---------------------------------------------------------------- without the lock

  /** What the second lstat establishes of a file. */
  predicate LooksPlanned(f: File, c: EntryInfo) {
    f.fileType.Regular? && Matches(f, c)
  }

  /** The name is gone or stands for a folder, so unlink removes nothing. */
  predicate NothingToUnlink(found: Option<File>) {
    found.None? || found.value.fileType.Folder?
  }

  /** `last` is what others do to the directory between the second lstat and the unlink of step i. */
  ghost predicate LastMoment(s: Surroundings, i: nat, last: Directory -> Directory) {
    forall d: Directory :: s.act(i, AtUnlink, d) == last(d)
  }

  lemma {:induction false} RestatSeesTheRest(
    s: Surroundings, check: Validity, i: nat, c: EntryInfo, dir: Directory, last: Directory -> Directory)
    requires LastMoment(s, i, last)
    requires forall d: Directory | Find(d, c.filename).Some? && LooksPlanned(Find(d, c.filename).value, c) ::
               NothingToUnlink(Find(last(d), c.filename)) || LooksPlanned(Find(last(d), c.filename).value, c)
    ensures forall t | t in ExecuteOne(s, check, i, c, dir).unlinked :: t.name == c.filename && LooksPlanned(t.file, c)
  {
    hide Find, Without, DistinctNames;
  }

  /** An interference that shows a valid entry until it is read, then directory d, then what `last` makes of it. */
  function Staged(name: string, shown: File, d: Directory, last: Directory -> Directory): Surroundings {
    Surroundings((i: nat, p: Point, x: Directory) => if p == AtUnlink then last(x) else if p == AtRestat then d
        else [Target(name, shown)],
                 (i: nat, p: Point) => false, true, true)
  }

  lemma {:induction false} StagedUnlinks(
    check: Validity, i: nat, c: EntryInfo, shown: File, d: Directory, last: Directory -> Directory)
    requires LooksPlanned(shown, c) && HoldsEntry(shown, c, check)
    requires Find(d, c.filename).Some? && LooksPlanned(Find(d, c.filename).value, c)
    requires Find(d, c.filename).value.inode == shown.inode
    requires !NothingToUnlink(Find(last(d), c.filename))
    ensures ExecuteOne(Staged(c.filename, shown, d, last), check, i, c, d).unlinked
            == [Target(c.filename, Find(last(d), c.filename).value)]
  {
    var s := Staged(c.filename, shown, d, last);
    var first: Directory := [Target(c.filename, shown)];
    assert Find(first, c.filename) == Some(shown);
    hide Find, Without, DistinctNames;
    assert s.act(i, AtStat, d) == first == s.act(i, AtOpen, first) == s.act(i, AtRead, first);
    assert s.act(i, AtRestat, first) == d && s.act(i, AtUnlink, d) == last(d);
  }

  /**
   For size and time the second lstat covers everything before it.  Under every interference and
   failure with a given last moment, what a step unlinks has the planned size and time, if and
   only if that last moment leaves of every file that looks as planned nothing, a folder, or a
   file that looks as planned.
   */
  lemma {:induction false} RestatCoversTheRest(
      check: Validity, i: nat, c: EntryInfo, planned: File, last: Directory -> Directory)
    requires LooksPlanned(planned, c) && HoldsEntry(planned, c, check)
    ensures (forall s: Surroundings, dir: Directory | LastMoment(s, i, last) ::
               forall t | t in ExecuteOne(s, check, i, c, dir).unlinked :: t.name == c.filename
                   && LooksPlanned(t.file, c))
            <==>
            (forall d: Directory | Find(d, c.filename).Some? && LooksPlanned(Find(d, c.filename).value, c) ::
               NothingToUnlink(Find(last(d), c.filename)) || LooksPlanned(Find(last(d), c.filename).value, c))
  {
    hide ExecuteOne, Find, LooksPlanned, DistinctNames;
    if forall d: Directory | Find(d, c.filename).Some? && LooksPlanned(Find(d, c.filename).value, c) ::
         NothingToUnlink(Find(last(d), c.filename)) || LooksPlanned(Find(last(d), c.filename).value, c)
    {
      forall s: Surroundings, dir: Directory | LastMoment(s, i, last)
        ensures forall t | t in ExecuteOne(s, check, i, c, dir).unlinked ::
                  t.name == c.filename && LooksPlanned(t.file, c)
      {
        RestatSeesTheRest(s, check, i, c, dir, last);
      }
    }
    if forall s: Surroundings, dir: Directory | LastMoment(s, i, last) ::
         forall t | t in ExecuteOne(s, check, i, c, dir).unlinked :: t.name == c.filename && LooksPlanned(t.file, c)
    {
      forall d: Directory | Find(d, c.filename).Some? && LooksPlanned(Find(d, c.filename).value, c)
        ensures NothingToUnlink(Find(last(d), c.filename)) || LooksPlanned(Find(last(d), c.filename).value, c)
      {
        if !NothingToUnlink(Find(last(d), c.filename)) {
          var shown := planned.(inode := Find(d, c.filename).value.inode);
          SameLooks(planned, shown, c, check);
          StagedUnlinks(check, i, c, shown, d, last);
          var s := Staged(c.filename, shown, d, last);
          assert LastMoment(s, i, last);
          var step := ExecuteOne(s, check, i, c, d);
          assert step.unlinked[0] in step.unlinked;
        }
      }
    }
  }

  lemma SameLooks(f: File, g: File, c: EntryInfo, check: Validity)
    requires LooksPlanned(f, c) && HoldsEntry(f, c, check) && g == f.(inode := g.inode)
    ensures LooksPlanned(g, c) && HoldsEntry(g, c, check)
  {
  }

  /** Nobody interferes with step i before its last moment. */
  ghost predicate QuietBefore(s: Surroundings, i: nat) {
    forall p, d: Directory | p != AtUnlink :: s.act(i, p, d) == d
  }

  lemma {:induction false} QuietStep(s: Surroundings, check: Validity, i: nat, c: EntryInfo, dir: Directory)
    requires QuietBefore(s, i) && NoCallFails(s, i)
    ensures var found, left := Find(dir, c.filename), Find(s.act(i, AtUnlink, dir), c.filename);
            ExecuteOne(s, check, i, c, dir).unlinked ==
            if DecisionOn(found, c, check) == Ok(Deleted)
                && !NothingToUnlink(left) then [Target(c.filename, left.value)] else []
  {
    hide Find, Without, DistinctNames;
    assert s.act(i, AtStat, dir) == dir == s.act(i, AtOpen, dir) == s.act(i, AtRead, dir) == s.act(i, AtRestat, dir);
  }

  /**
   With everything quiet before it, that moment decides alone: every file a step unlinks is as
   planned if and only if the moment leaves of every entry that is as planned nothing, a folder,
   or an entry that is as planned.
   */
  lemma {:induction false} LastMomentDecides(s: Surroundings, check: Validity, i: nat, c: EntryInfo)
    requires QuietBefore(s, i) && NoCallFails(s, i)
    ensures (forall dir: Directory :: forall t | t in ExecuteOne(s, check, i, c, dir).unlinked ::
            AsPlanned(t, c, check))
            <==>
            (forall dir: Directory | DecisionOn(Find(dir, c.filename), c, check) == Ok(Deleted) ::
               var left := Find(s.act(i, AtUnlink, dir), c.filename);
               NothingToUnlink(left) || AsPlanned(Target(c.filename, left.value), c, check))
  {
    hide ExecuteOne, Find, DecisionOn, AsPlanned, DistinctNames;
    forall dir: Directory
      ensures (forall t | t in ExecuteOne(s, check, i, c, dir).unlinked :: AsPlanned(t, c, check)) <==>
              (DecisionOn(Find(dir, c.filename), c, check) == Ok(Deleted) ==>
                 var left := Find(s.act(i, AtUnlink, dir), c.filename);
                 NothingToUnlink(left) || AsPlanned(Target(c.filename, left.value), c, check))
    {
      QuietStep(s, check, i, c, dir);
      var left := Find(s.act(i, AtUnlink, dir), c.filename);
      if !NothingToUnlink(left) { assert Target(c.filename, left.value) in [Target(c.filename, left.value)]; }
    }
  }

  /** Nobody interferes but for one writer that replaces the entry between the second lstat and the unlink. */
  function ReplacedAtTheEnd(name: string, file: File): Surroundings {
    Surroundings((i: nat, p: Point, d: Directory) => if p == AtUnlink then [Target(name, file)] else d,
                 (i: nat, p: Point) => false, true, true)
  }

  /**
   An instance: any replacement put there but a folder is deleted unseen and reported as the
   planned entry; on a folder the unlink fails, and so does the prune.
   */
  lemma {:induction false} ReplacementIsDeletedWithoutLock(
      check: Validity, c: EntryInfo, planned: File, replacement: File)
    requires planned.fileType.Regular? && Matches(planned, c) && HoldsEntry(planned, c, check)
    ensures var step := ExecuteOne(ReplacedAtTheEnd(c.filename, replacement), check, 0, c,
            [Target(c.filename, planned)]);
            if replacement.fileType.Folder? then step.unlinked == [] && step.item == Err(CallFailed)
            else step.unlinked == [Target(c.filename, replacement)] && step.item == Ok(ItemOf(c, Deleted))
  {
    var dir: Directory := [Target(c.filename, planned)];
    assert Find(dir, c.filename) == Some(planned);
    var after: Directory := [Target(c.filename, replacement)];
    assert Find(after, c.filename) == Some(replacement);
  }
}
