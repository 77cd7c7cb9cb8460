/**
 Executing a prune plan (app/persistent_cache_maintenance.py, execute_prune).

 Other processes keep working on the directory meanwhile: `Surroundings` says what they do to
 it just before each system call of the prune, and which calls fail.  A file is replaced, never
 rewritten in place, so an open descriptor keeps reading the file that was opened.
 */
module CacheExecution {
  import opened Wrappers
  import opened Ordering
  import opened CacheInventory
  import opened CachePruning

  // ---------------------------------------------------------------- the directory

  datatype Target = Target(name: string, file: File)

  predicate DistinctNames(targets: seq<Target>) {
    forall i, j | 0 <= i < j < |targets| :: targets[i].name != targets[j].name
  }

  type Directory = d: seq<Target> | DistinctNames(d)

  function Find(dir: Directory, name: string): Option<File> {
    if dir == [] then None else if dir[0].name == name then Some(dir[0].file) else Find(dir[1..], name)
  }

  function Without(dir: Directory, names: set<string>): (r: Directory)
    ensures forall t | t in r :: t in dir && t.name !in names
  {
    if dir == [] then []
    else if dir[0].name in names then Without(dir[1..], names)
    else [dir[0]] + Without(dir[1..], names)
  }

  lemma {:induction false} FindWithout(dir: Directory, names: set<string>, name: string)
    ensures Find(Without(dir, names), name) == if name in names then None else Find(dir, name)
  {
    if dir != [] {
      FindWithout(dir[1..], names, name);
      assert ([dir[0]] + Without(dir[1..], names))[1..] == Without(dir[1..], names);
    }
  }

  // ---------------------------------------------------------------- the surroundings

  /** The moment just before a system call. */
  datatype Point = AtLockOpen | AtLockWait | AtStat | AtOpen | AtRead | AtRestat | AtUnlink

  datatype Surroundings = Surroundings(
    act: (nat, Point, Directory) -> Directory, fails: (nat, Point) -> bool, usable: bool, syncs: bool)

  datatype PruneError = UnusableDirectory | UnsafeCandidate | CallFailed | SyncFailed

  datatype CandidateState = StillValid | Absent | Replaced | NotValid

  datatype Outcome = Deleted | AlreadyAbsent | Stale | Invalid

  datatype Item = Item(
    kind: CacheKind, filename: string, entryKey: string, plannedBytes: nat, outcome: Outcome, deletedBytes: nat)

  function ItemOf(c: EntryInfo, outcome: Outcome): Item {
    Item(c.kind, c.filename, c.entryKey, c.sizeBytes, outcome, if outcome.Deleted? then c.sizeBytes else 0)
  }

  // ---------------------------------------------------------------- one candidate

  predicate Matches(f: File, c: EntryInfo) {
    f.size == c.sizeBytes && f.mtimeNs == c.mtimeNs
  }

  predicate HoldsEntry(f: File, c: EntryInfo, check: Validity) {
    |f.content| >= c.sizeBytes && check(c.kind, f.content[..c.sizeBytes], c.entryKey)
  }

  datatype Seen = Seen(dir: Directory, state: Result<CandidateState, PruneError>)

  /** _revalidate_candidate: lstat, open, read unless it is empty, and lstat again. */
  function Revalidate(s: Surroundings, check: Validity, i: nat, c: EntryInfo, dir: Directory): Seen {
    var d := s.act(i, AtStat, dir);
    if s.fails(i, AtStat) then Seen(d, Err(CallFailed))
    else match Find(d, c.filename)
      case None => Seen(d, Ok(Absent))
      case Some(f) =>
        if !f.fileType.Regular? then Seen(d, Err(UnsafeCandidate))
        else if !Matches(f, c) then Seen(d, Ok(Replaced))
        else Reopen(s, check, i, c, f.inode, d)
  }

  function Reopen(s: Surroundings, check: Validity, i: nat, c: EntryInfo, inode: nat, dir: Directory): Seen {
    var d := s.act(i, AtOpen, dir);
    if s.fails(i, AtOpen) then Seen(d, Err(CallFailed))
    else match Find(d, c.filename)
      case None => Seen(d, Ok(Absent))
      case Some(f) =>
        if !f.fileType.Regular? then Seen(d, Err(UnsafeCandidate))
        else if f.inode != inode || !Matches(f, c) then Seen(d, Ok(Replaced))
        else Reread(s, check, i, c, f, d)
  }

  function Reread(s: Surroundings, check: Validity, i: nat, c: EntryInfo, f: File, dir: Directory): Seen {
    var d := s.act(i, AtRead, dir);
    if c.sizeBytes > 0 && s.fails(i, AtRead) then Seen(d, Err(CallFailed))
    else if |f.content| < c.sizeBytes then Seen(d, Ok(Replaced))
    else if !check(c.kind, f.content[..c.sizeBytes], c.entryKey) then Seen(d, Ok(NotValid))
    else Restat(s, i, c, f.inode, d)
  }

  function Restat(s: Surroundings, i: nat, c: EntryInfo, inode: nat, dir: Directory): Seen {
    var d := s.act(i, AtRestat, dir);
    if s.fails(i, AtRestat) then Seen(d, Err(CallFailed))
    else match Find(d, c.filename)
      case None => Seen(d, Ok(Absent))
      case Some(f) =>
        if !f.fileType.Regular? then Seen(d, Err(UnsafeCandidate))
        else if f.inode != inode || !Matches(f, c) then Seen(d, Ok(Replaced))
        else Seen(d, Ok(StillValid))
  }

  datatype Step = Step(dir: Directory, unlinked: seq<Target>, item: Result<Item, PruneError>)

  function OutcomeOf(state: CandidateState): Outcome {
    match state
    case StillValid => Deleted
    case Absent => AlreadyAbsent
    case Replaced => Stale
    case NotValid => Invalid
  }

  /** _execute_candidate, with the files it unlinked. */
  function ExecuteOne(s: Surroundings, check: Validity, i: nat, c: EntryInfo, dir: Directory): Step {
    var seen := Revalidate(s, check, i, c, dir);
    match seen.state
    case Err(e) => Step(seen.dir, [], Err(e))
    case Ok(StillValid) => Unlink(s, i, c, seen.dir)
    case Ok(state) => Step(seen.dir, [], Ok(ItemOf(c, OutcomeOf(state))))
  }

  /** unlink removes anything but a folder. */
  function Unlink(s: Surroundings, i: nat, c: EntryInfo, dir: Directory): Step {
    var d := s.act(i, AtUnlink, dir);
    if s.fails(i, AtUnlink) then Step(d, [], Err(CallFailed))
    else match Find(d, c.filename)
      case None => Step(d, [], Ok(ItemOf(c, AlreadyAbsent)))
      case Some(f) =>
        if f.fileType.Folder? then Step(d, [], Err(CallFailed))
        else Step(Without(d, {c.filename}), [Target(c.filename, f)], Ok(ItemOf(c, Deleted)))
  }

  // ---------------------------------------------------------------- the locks

  /** The embedding cache has one lock for all entries, the parsed cache one lock per entry. */
  function LockName(kind: CacheKind, key: string): string {
    match kind case Embedding => EMBEDDING_LOCK case Parsed => "." + key + LOCK_SUFFIX
  }

  /** A newly created lock file; nothing looks at its time or inode. */
  const EMPTY_LOCK: File := File(Regular, 0, 0, 0, "")

  lemma {:induction false} FoundNames(dir: Directory, name: string)
    ensures Find(dir, name).None? ==> forall t | t in dir :: t.name != name
  {
    if dir != [] && dir[0].name != name {
      FoundNames(dir[1..], name);
      assert dir == [dir[0]] + dir[1..];
    }
  }

  function WithLock(dir: Directory, name: string): Directory {
    FoundNames(dir, name);
    if Find(dir, name).Some? then dir else dir + [Target(name, EMPTY_LOCK)]
  }

  datatype Locking = Locking(dir: Directory, held: bool)

  /** exclusive_maintenance_lock, exclusive_maintenance_entry_lock: open or create the lock file, and wait for it. */
  function TakeLock(s: Surroundings, kind: CacheKind, i: nat, c: EntryInfo, dir: Directory): Locking {
    var d, name := s.act(i, AtLockOpen, dir), LockName(kind, c.entryKey);
    if s.fails(i, AtLockOpen) || (Find(d, name).Some? && !Find(d, name).value.fileType.Regular?) then Locking(d, false)
    else Locking(s.act(i, AtLockWait, WithLock(d, name)), !s.fails(i, AtLockWait))
  }

  // ---------------------------------------------------------------- the whole plan

  datatype Run = Run(dir: Directory, unlinked: seq<Target>, items: seq<Item>, failed: Option<PruneError>)

  predicate TakesLock(kind: CacheKind, i: nat) {
    kind.Parsed? || i == 0
  }

  function LockStep(s: Surroundings, kind: CacheKind, i: nat, c: EntryInfo, dir: Directory): Locking {
    if TakesLock(kind, i) then TakeLock(s, kind, i, c, dir) else Locking(dir, true)
  }

  function RunStep(s: Surroundings, check: Validity, kind: CacheKind, i: nat, c: EntryInfo, before: Run): Run {
    var lock := LockStep(s, kind, i, c, before.dir);
    if !lock.held then before.(dir := lock.dir, failed := Some(CallFailed))
    else
      var step := ExecuteOne(s, check, i, c, lock.dir);
      match step.item
      case Err(e) => Run(step.dir, before.unlinked + step.unlinked, before.items, Some(e))
      case Ok(item) => Run(step.dir, before.unlinked + step.unlinked, before.items + [item], None)
  }

  /** The first n candidates, up to the first failure. */
  function RunTo(s: Surroundings, check: Validity, plan: PrunePlan, dir: Directory, n: nat): Run
    requires n <= |plan.candidates|
  {
    if n == 0 then Run(dir, [], [], None)
    else
      var before := RunTo(s, check, plan, dir, n - 1);
      if before.failed.Some? then before else RunStep(s, check, plan.kind, n - 1, plan.candidates[n - 1], before)
  }

  lemma RunToStep(s: Surroundings, check: Validity, plan: PrunePlan, dir: Directory, n: nat)
    requires n < |plan.candidates|
    ensures RunTo(s, check, plan, dir, 0) == Run(dir, [], [], None)
    ensures var before := RunTo(s, check, plan, dir, n);
            RunTo(s, check, plan, dir, n + 1) ==
            if before.failed.Some? then before else RunStep(s, check, plan.kind, n, plan.candidates[n], before)
  {
    hide RunStep;
  }

  datatype PruneResult = PruneResult(
    plannedCount: nat, plannedBytes: nat, deletedCount: nat, deletedBytes: nat, skippedCount: int, items: seq<Item>)

  datatype PruneFailure = PruneFailure(error: PruneError, items: seq<Item>, deletedCount: nat, deletedBytes: nat)

  predicate WasDeleted(item: Item) {
    item.outcome.Deleted?
  }

  function DeletedItems(items: seq<Item>): seq<Item> {
    Filter(WasDeleted, items)
  }

  function DeletedBytes(items: seq<Item>): nat {
    if items == [] then 0 else items[0].deletedBytes + DeletedBytes(items[1..])
  }

  function Failure(error: PruneError, items: seq<Item>): PruneFailure {
    PruneFailure(error, items, |DeletedItems(items)|, DeletedBytes(items))
  }

  /** _prune_result */
  function Success(plan: PrunePlan, items: seq<Item>): PruneResult {
    PruneResult(plan.selectedCount, plan.selectedBytes, |DeletedItems(items)|, DeletedBytes(DeletedItems(items)),
                |items| - |DeletedItems(items)|, items)
  }

  function Conclude(s: Surroundings, plan: PrunePlan, run: Run): Result<PruneResult, PruneFailure> {
    if DeletedItems(run.items) != [] && !s.syncs then Err(Failure(SyncFailed, run.items))
    else match run.failed
      case Some(e) => Err(Failure(e, run.items))
      case None => Ok(Success(plan, run.items))
  }

  class CacheDirectory {
    var targets: Directory
    var unlinked: seq<Target>  // what prunes have unlinked here, in order

    constructor (dir: Directory)
      ensures targets == dir && unlinked == []
    {
      targets, unlinked := dir, [];
    }

    method ExecuteCandidate(
        s: Surroundings, check: Validity, i: nat, c: EntryInfo
    ) returns (r: Result<Item, PruneError>)
      modifies this
      ensures var step := ExecuteOne(s, check, i, c, old(targets));
              r == step.item && targets == step.dir && unlinked == old(unlinked) + step.unlinked
    {
      var state := RevalidateCandidate(s, check, i, c);
      if state.Err? { return Err(state.error); }
      if state.value.StillValid? {
        targets := s.act(i, AtUnlink, targets);
        if s.fails(i, AtUnlink) { return Err(CallFailed); }
        var found := Find(targets, c.filename);
        if found.None? { return Ok(ItemOf(c, AlreadyAbsent)); }
        if found.value.fileType.Folder? { return Err(CallFailed); }
        unlinked := unlinked + [Target(c.filename, found.value)];
        targets := Without(targets, {c.filename});
      }
      return Ok(ItemOf(c, OutcomeOf(state.value)));
    }

    method RevalidateCandidate(s: Surroundings, check: Validity, i: nat, c: EntryInfo)
      returns (r: Result<CandidateState, PruneError>)
      modifies `targets
      ensures Seen(targets, r) == Revalidate(s, check, i, c, old(targets))
    {
      targets := s.act(i, AtStat, targets);
      if s.fails(i, AtStat) { return Err(CallFailed); }
      var observed := Find(targets, c.filename);
      if observed.None? { return Ok(Absent); }
      if !observed.value.fileType.Regular? { return Err(UnsafeCandidate); }
      if observed.value.size != c.sizeBytes || observed.value.mtimeNs != c.mtimeNs { return Ok(Replaced); }

      targets := s.act(i, AtOpen, targets);
      if s.fails(i, AtOpen) { return Err(CallFailed); }
      var descriptor := Find(targets, c.filename);
      if descriptor.None? { return Ok(Absent); }
      var file := descriptor.value;
      if !file.fileType.Regular? { return Err(UnsafeCandidate); }
      if file.inode != observed.value.inode || file.size != c.sizeBytes
          || file.mtimeNs != c.mtimeNs { return Ok(Replaced); }

      targets := s.act(i, AtRead, targets);
      if file.size > 0 && s.fails(i, AtRead) { return Err(CallFailed); }
      if |file.content| < file.size { return Ok(Replaced); }
      if !check(c.kind, file.content[..file.size], c.entryKey) { return Ok(NotValid); }

      targets := s.act(i, AtRestat, targets);
      if s.fails(i, AtRestat) { return Err(CallFailed); }
      var final := Find(targets, c.filename);
      if final.None? { return Ok(Absent); }
      if !final.value.fileType.Regular? { return Err(UnsafeCandidate); }
      if final.value.inode != file.inode || final.value.size != c.sizeBytes || final.value.mtimeNs != c.mtimeNs {
        return Ok(Replaced);
      }
      return Ok(StillValid);
    }

    method AcquireLock(s: Surroundings, kind: CacheKind, i: nat, c: EntryInfo) returns (held: bool)
      modifies `targets
      ensures Locking(targets, held) == TakeLock(s, kind, i, c, old(targets))
    {
      var name := LockName(kind, c.entryKey);
      targets := s.act(i, AtLockOpen, targets);
      if s.fails(i, AtLockOpen) { return false; }
      var found := Find(targets, name);
      if found.Some? && !found.value.fileType.Regular? { return false; }
      targets := WithLock(targets, name);
      targets := s.act(i, AtLockWait, targets);
      return !s.fails(i, AtLockWait);
    }

    method ExecutePrune(
        s: Surroundings, check: Validity, plan: PrunePlan
    ) returns (r: Result<PruneResult, PruneFailure>)
      modifies this
      ensures plan.candidates == [] || !s.usable ==> targets == old(targets) && unlinked == old(unlinked)
      ensures plan.candidates == [] ==> r == Ok(Success(plan, []))
      ensures plan.candidates != [] && !s.usable ==> r == Err(Failure(UnusableDirectory, []))
      ensures plan.candidates != [] && s.usable ==>
                var run := RunTo(s, check, plan, old(targets), |plan.candidates|);
                r == Conclude(s, plan, run) && targets == run.dir && unlinked == old(unlinked) + run.unlinked
    {
      hide ExecuteOne, TakeLock, DeletedItems, DeletedBytes, DistinctNames, RunTo;
      if plan.candidates == [] { return Ok(Success(plan, [])); }
      if !s.usable { return Err(Failure(UnusableDirectory, [])); }
      var completed: seq<Item> := [];
      var failed: Option<PruneError> := None;
      ghost var dir, n := targets, |plan.candidates|;
      RunToStep(s, check, plan, dir, 0);
      if plan.kind.Embedding? {
        var held := AcquireLock(s, plan.kind, 0, plan.candidates[0]);
        if !held { failed := Some(CallFailed); }
        var i := 0;
        while i < |plan.candidates| && failed.None?
          invariant i <= n
          invariant i == 0 ==> unlinked == old(unlinked) && completed == []
          invariant i == 0 ==> Locking(targets, failed.None?) == TakeLock(s, plan.kind, 0, plan.candidates[0], dir)
          invariant i == 0 ==> failed in {None, Some(CallFailed)}
          invariant i > 0 ==> var run := RunTo(s, check, plan, dir, i);
                    targets == run.dir && unlinked == old(unlinked) + run.unlinked && completed == run.items
                        && failed == run.failed
        {
          RunToStep(s, check, plan, dir, i);
          var item := ExecuteCandidate(s, check, i, plan.candidates[i]);
          if item.Ok? { completed := completed + [item.value]; } else { failed := Some(item.error); }
          i := i + 1;
        }
        FailedRunStays(s, check, plan, dir, if i == 0 then 1 else i, n);
      } else {
        var i := 0;
        while i < |plan.candidates| && failed.None?
          invariant i <= n
          invariant var run := RunTo(s, check, plan, dir, i);
                    targets == run.dir && unlinked == old(unlinked) + run.unlinked && completed == run.items
                        && failed == run.failed
        {
          RunToStep(s, check, plan, dir, i);
          var held := AcquireLock(s, plan.kind, i, plan.candidates[i]);
          if !held {
            failed := Some(CallFailed);
          } else {
            var item := ExecuteCandidate(s, check, i, plan.candidates[i]);
            if item.Ok? { completed := completed + [item.value]; } else { failed := Some(item.error); }
          }
          i := i + 1;
        }
        FailedRunStays(s, check, plan, dir, i, n);
      }
      if DeletedItems(completed) != [] && !s.syncs { return Err(Failure(SyncFailed, completed)); }
      if failed.Some? { return Err(Failure(failed.value, completed)); }
      return Ok(Success(plan, completed));
    }
  }

  lemma {:induction false} FailedRunStays(
      s: Surroundings, check: Validity, plan: PrunePlan, dir: Directory, i: nat, n: nat)
    requires i <= n <= |plan.candidates|
    ensures RunTo(s, check, plan, dir, i).failed.Some? ==>
            RunTo(s, check, plan, dir, n) == RunTo(s, check, plan, dir, i)
    decreases n - i
  {
    hide RunStep, RunTo;
    if i < n {
      RunToStep(s, check, plan, dir, i);
      FailedRunStays(s, check, plan, dir, i + 1, n);
    }
  }
}
