/**
 Inventory, plan and execution end to end: with no interference a later inventory of the
 pruned directory is what the plan expected to remain (app/persistent_cache_maintenance.py).
 */
module CacheRemainder {
  import opened Wrappers
  import opened Hashing
  import opened Ordering
  import opened CacheInventory
  import opened CachePruning
  import opened CacheExecution

  /** Nobody touches the directory during the prune, and no call fails. */
  ghost predicate Undisturbed(s: Surroundings) {
    && s.usable && s.syncs
    && (forall i, p, d: Directory :: s.act(i, p, d) == d)
    && (forall i, p :: !s.fails(i, p))
  }

  /** What a scan of a directory at rest sees. */
  function Shown(t: Target): Sighting {
    Sighting(t.name, t.file, Some(t.file))
  }

  function Listing(targets: seq<Target>): (r: seq<Sighting>)
    ensures |r| == |targets|
    ensures forall i | 0 <= i < |r| :: r[i] == Shown(targets[i])
  {
    if targets == [] then [] else [Shown(targets[0])] + Listing(targets[1..])
  }

  function StatusAtRest(kind: CacheKind, check: Validity, dir: Directory): CacheStatus {
    StatusOf(kind, check, Listing(dir))
  }

  predicate AllRegular(targets: seq<Target>) {
    forall t | t in targets :: t.file.fileType.Regular?
  }

  /** An inventory of the directory at rest returns a status. */
  predicate CanBeInventoried(kind: CacheKind, check: Validity, targets: seq<Target>) {
    FirstFailure(kind, check, Listing(targets)).None?
  }

  lemma InventoriedTargets(kind: CacheKind, check: Validity, targets: seq<Target>)
    ensures CanBeInventoried(kind, check, targets) <==> forall t | t in targets ::
            FailureOf(kind, check, Shown(t)).None?
    ensures CanBeInventoried(kind, check, targets) ==> AllRegular(targets)
  {
    hide ClassOf, FirstFailure;
    forall t | t in targets ensures Shown(t) in Listing(targets) {
      var i :| 0 <= i < |targets| && targets[i] == t;
      assert Listing(targets)[i] == Shown(t);
    }
    assert forall s | s in Listing(targets) :: exists t | t in targets :: s == Shown(t);
  }

  // ---------------------------------------------------------------- the directory after removals

  lemma {:induction false} FindListed(dir: Directory, i: nat)
    requires i < |dir|
    ensures Find(dir, dir[i].name) == Some(dir[i].file)
  {
    if i > 0 { FindListed(dir[1..], i - 1); }
  }

  lemma {:induction false} WithoutTwice(dir: Directory, a: set<string>, b: set<string>)
    ensures Without(Without(dir, a), b) == Without(dir, a + b)
  {
    if dir != [] {
      WithoutTwice(dir[1..], a, b);
      assert ([dir[0]] + Without(dir[1..], a))[1..] == Without(dir[1..], a);
    }
  }

  lemma {:induction false} WithoutNone(dir: Directory)
    ensures Without(dir, {}) == dir
  {
    if dir != [] { WithoutNone(dir[1..]); }
  }

  function NotIn(names: set<string>): EntryInfo -> bool {
    (e: EntryInfo) => e.filename !in names
  }

  lemma CountListing(kind: CacheKind, check: Validity, targets: seq<Target>, c: Class)
    ensures var counts := Count(kind, check, c, Listing(targets));
            counts == if targets == [] then 0
                      else
                        (if ClassOf(kind, check, Shown(targets[0])) == c then 1 else 0)
                        + Count(kind, check, c, Listing(targets[1..]))
    ensures var bytes := Bytes(kind, check, c, Listing(targets));
            bytes == if targets == [] then 0
                     else (if ClassOf(kind, check, Shown(targets[0])) == c then targets[0].file.size else 0)
                          + Bytes(kind, check, c, Listing(targets[1..]))
  {
    hide ClassOf;
    if targets != [] { assert Listing(targets)[1..] == Listing(targets[1..]); }
  }

  lemma EntriesListing(kind: CacheKind, check: Validity, targets: seq<Target>)
    ensures var found := EntriesOf(kind, check, Listing(targets));
            found == if targets == [] then []
                     else (if ClassOf(kind, check, Shown(targets[0])).Valid? then [InfoOf(kind, Shown(targets[0]))]
                         else [])
                          + EntriesOf(kind, check, Listing(targets[1..]))
  {
    hide ClassOf;
    if targets != [] { assert Listing(targets)[1..] == Listing(targets[1..]); }
  }

  lemma WithoutStep(dir: Directory, names: set<string>)
    requires dir != []
    ensures Without(dir, names) == (if dir[0].name in names then [] else [dir[0]]) + Without(dir[1..], names)
  {
  }

  lemma {:induction false} EntriesWithout(kind: CacheKind, check: Validity, dir: Directory, names: set<string>)
    ensures EntriesOf(kind, check, Listing(Without(dir, names))) ==
            Filter(NotIn(names), EntriesOf(kind, check, Listing(dir)))
  {
    hide ClassOf, EntriesOf, Listing, Without, Filter;
    EntriesListing(kind, check, dir);
    if dir == [] {
      FilterNothing(NotIn(names));
      EntriesListing(kind, check, Without(dir, names));
      WithoutNothing(names);
    } else {
      EntriesWithout(kind, check, dir[1..], names);
      WithoutStep(dir, names);
      var rest := EntriesOf(kind, check, Listing(dir[1..]));
      if ClassOf(kind, check, Shown(dir[0])).Valid? {
        FilterStep(NotIn(names), InfoOf(kind, Shown(dir[0])), rest);
      } else {
        assert EntriesOf(kind, check, Listing(dir)) == rest;
      }
      if dir[0].name !in names {
        EntriesListing(kind, check, Without(dir, names));
        assert Without(dir, names)[1..] == Without(dir[1..], names);
      } else {
        assert Without(dir, names) == Without(dir[1..], names);
      }
    }
  }

  lemma WithoutNothing(names: set<string>)
    ensures Without([], names) == []
  {
  }

  lemma {:induction false} CountsWithout(kind: CacheKind, check: Validity, dir: Directory, names: set<string>, c: Class)
    requires c != Valid
    requires forall t | t in dir && t.name in names :: ClassOf(kind, check, Shown(t)).Valid?
    ensures Count(kind, check, c, Listing(Without(dir, names))) == Count(kind, check, c, Listing(dir))
    ensures Bytes(kind, check, c, Listing(Without(dir, names))) == Bytes(kind, check, c, Listing(dir))
  {
    hide ClassOf, Count, Bytes, Listing;
    CountListing(kind, check, dir, c);
    if dir != [] {
      CountsWithout(kind, check, dir[1..], names, c);
      if dir[0].name !in names {
        var left := [dir[0]] + Without(dir[1..], names);
        assert left[1..] == Without(dir[1..], names) && Without(dir, names) == left;
        CountListing(kind, check, left, c);
      } else {
        assert dir[0] in dir;
      }
    }
  }

  // ---------------------------------------------------------------- distinct entries

  predicate DistinctFiles(entries: seq<EntryInfo>) {
    forall i, j | 0 <= i < j < |entries| :: entries[i].filename != entries[j].filename
  }

  lemma {:induction false} EntryIsFound(kind: CacheKind, check: Validity, dir: Directory, e: EntryInfo)
    requires AllRegular(dir)
    requires e in EntriesOf(kind, check, Listing(dir))
    ensures exists i | 0 <= i < |dir| :: dir[i].name == e.filename && ClassOf(kind, check, Listing(dir)[i]).Valid?
    ensures Find(dir, e.filename).Some?
    ensures var f := Find(dir, e.filename).value; f.fileType.Regular? && Matches(f, e) && HoldsEntry(f, e, check)
  {
    EntriesAreTheValidOnes(kind, check, Listing(dir), e);
    var t :| t in Listing(dir) && ClassOf(kind, check, t).Valid? && e == InfoOf(kind, t);
    var i :| 0 <= i < |dir| && Listing(dir)[i] == t;
    FindListed(dir, i);
    assert dir[i] in dir;
  }

  lemma {:induction false} EntriesAreDistinct(kind: CacheKind, check: Validity, dir: Directory)
    requires AllRegular(dir)
    ensures DistinctFiles(EntriesOf(kind, check, Listing(dir)))
  {
    hide ClassOf;
    if dir != [] {
      assert Listing(dir)[1..] == Listing(dir[1..]);
      EntriesAreDistinct(kind, check, dir[1..]);
      var rest := EntriesOf(kind, check, Listing(dir[1..]));
      forall e | e in rest ensures e.filename != dir[0].name {
        EntryIsFound(kind, check, dir[1..], e);
        var i :| 0 <= i < |dir[1..]| && dir[1..][i].name == e.filename;
        assert dir[i + 1].name == e.filename;
      }
      forall k | 0 <= k < |rest| ensures rest[k].filename != dir[0].name { assert rest[k] in rest; }
    }
  }

  lemma {:induction false} InsertIsDistinct(e: EntryInfo, s: seq<EntryInfo>)
    requires DistinctFiles(s) && forall x | x in s :: x.filename != e.filename
    ensures DistinctFiles(Insert(EntryLe, e, s))
  {
    hide EntryLe;
    if s != [] && !EntryLe(e, s[0]) {
      InsertIsDistinct(e, s[1..]);
      var rest := Insert(EntryLe, e, s[1..]);
      InsertPermutes(EntryLe, e, s[1..]);
      forall k | 0 <= k < |rest| ensures rest[k].filename != s[0].filename {
        assert rest[k] in multiset(rest);
        if rest[k] in s[1..] { var m :| 0 <= m < |s[1..]| && s[1..][m] == rest[k]; assert s[m + 1] == rest[k]; }
      }
    }
  }

  lemma {:induction false} SortIsDistinct(s: seq<EntryInfo>)
    requires DistinctFiles(s)
    ensures DistinctFiles(Sort(EntryLe, s))
  {
    if s != [] {
      SortIsDistinct(s[1..]);
      SortPermutes(EntryLe, s[1..]);
      forall x | x in Sort(EntryLe, s[1..]) ensures x.filename != s[0].filename {
        assert x in multiset(Sort(EntryLe, s[1..]));
        assert x in s[1..];
      }
      InsertIsDistinct(s[0], Sort(EntryLe, s[1..]));
    }
  }

  function Names(entries: seq<EntryInfo>): set<string> {
    set e | e in entries :: e.filename
  }

  lemma {:induction false} FilterRest(s: seq<EntryInfo>, names: set<string>)
    requires forall e | e in s :: e.filename !in names
    ensures Filter(NotIn(names), s) == s
  {
    if s != [] { FilterRest(s[1..], names); }
  }

  lemma {:induction false} FilterPrefix(s: seq<EntryInfo>, n: nat, names: set<string>)
    requires DistinctFiles(s) && n <= |s|
    requires forall i | 0 <= i < |s| :: s[i].filename in names <==> i < n
    ensures Filter(NotIn(names), s) == s[n..]
  {
    if n == 0 {
      FilterRest(s, names);
    } else {
      FilterPrefix(s[1..], n - 1, names);
    }
  }

  lemma {:induction false} RemovesExactlyThePrefix(s: seq<EntryInfo>, n: nat)
    requires DistinctFiles(s) && n <= |s|
    ensures Filter(NotIn(Names(s[..n])), s) == s[n..]
  {
    var names := Names(s[..n]);
    forall i | 0 <= i < |s| ensures s[i].filename in names <==> i < n {
      if i < n { assert s[i] == s[..n][i]; }
      if s[i].filename in names {
        var j :| 0 <= j < n && s[..n][j].filename == s[i].filename;
        assert s[j].filename == s[i].filename;
      }
    }
    FilterPrefix(s, n, names);
  }

  // ---------------------------------------------------------------- an undisturbed run

  lemma {:induction false} UndisturbedStep(s: Surroundings, check: Validity, i: nat, c: EntryInfo, dir: Directory)
    requires Undisturbed(s) && Find(dir, c.filename).Some?
    requires var f := Find(dir, c.filename).value; f.fileType.Regular? && Matches(f, c) && HoldsEntry(f, c, check)
    ensures var step := ExecuteOne(s, check, i, c, dir);
            step.dir == Without(dir, {c.filename}) && step.item == Ok(ItemOf(c, Deleted))
  {
    hide Find, Without, DistinctNames;
  }

  predicate AllDeleted(items: seq<Item>) {
    forall k | 0 <= k < |items| :: items[k].outcome.Deleted?
  }

  /** Lock files a prune created: regular, empty, under lock names. */
  predicate NewLocks(kind: CacheKind, locks: seq<Target>) {
    forall t | t in locks :: IsLockName(kind, t.name) && t.file == EMPTY_LOCK
  }

  /** The directory is the starting one without some entries, and with new lock files. */
  predicate IsRest(dir: Directory, names: set<string>, kind: CacheKind, locks: seq<Target>, now: Directory) {
    NewLocks(kind, locks) && now == Without(dir, names) + locks
  }

  lemma {:induction false} FindBefore(targets: Directory, locks: seq<Target>, name: string)
    requires DistinctNames(targets + locks) && forall t | t in locks :: t.name != name
    ensures Find(targets + locks, name) == Find(targets, name)
    decreases |targets| + |locks|
  {
    if targets != [] {
      assert (targets + locks)[1..] == targets[1..] + locks;
      FindBefore(targets[1..], locks, name);
    } else if locks != [] {
      assert targets + locks == locks && locks[1..] == targets + locks[1..];
      FindBefore(targets, locks[1..], name);
    }
  }

  lemma {:induction false} WithoutBefore(targets: Directory, locks: seq<Target>, names: set<string>)
    requires DistinctNames(targets + locks) && forall t | t in locks :: t.name !in names
    ensures Without(targets + locks, names) == Without(targets, names) + locks
    decreases |targets| + |locks|
  {
    hide Without;
    WithoutNothing(names);
    var all: Directory := targets + locks;
    if targets != [] {
      assert all[1..] == targets[1..] + locks && all[0] == targets[0];
      WithoutBefore(targets[1..], locks, names);
      WithoutStep(all, names);
      WithoutStep(targets, names);
    } else if locks != [] {
      assert all == locks && all[1..] == [] + locks[1..] && all[0] in locks;
      WithoutBefore([], locks[1..], names);
      WithoutStep(all, names);
    }
  }

  lemma LockNamesAreNotEntries(kind: CacheKind, name: string)
    requires IsLockName(kind, name)
    ensures !IsEntryName(name)
  {
    assert |EMBEDDING_LOCK| == 21;
  }

  lemma LockNameIsOne(kind: CacheKind, key: string)
    requires IsSha256Digest(key)
    ensures IsLockName(kind, LockName(kind, key))
  {
    var name := "." + key + LOCK_SUFFIX;
    assert name[1..65] == key && name[65..] == LOCK_SUFFIX;
  }

  /** Taking a lock undisturbed adds at most its own new lock file. */
  lemma {:induction false} UndisturbedLock(
    s: Surroundings, kind: CacheKind, i: nat, c: EntryInfo, dir: Directory, names: set<string>, locks: seq<Target>,
        now: Directory)
    returns (more: seq<Target>)
    requires Undisturbed(s) && IsRest(dir, names, kind, locks, now) && AllRegular(now) && IsSha256Digest(c.entryKey)
    ensures LockStep(s, kind, i, c, now).held && IsRest(dir, names, kind, more, LockStep(s, kind, i, c, now).dir)
    ensures AllRegular(LockStep(s, kind, i, c, now).dir)
  {
    hide Without, DistinctNames, IsLockName, Find, IsSha256Digest;
    more := locks;
    if TakesLock(kind, i) {
      var name := LockName(kind, c.entryKey);
      LockNameIsOne(kind, c.entryKey);
      if Find(now, name).None? {
        more := locks + [Target(name, EMPTY_LOCK)];
        assert now + [Target(name, EMPTY_LOCK)] == Without(dir, names) + more;
      } else {
        FoundIsIn(now, name);
      }
    }
  }

  lemma {:induction false} FoundIsIn(dir: Directory, name: string)
    requires Find(dir, name).Some?
    ensures Target(name, Find(dir, name).value) in dir
  {
    if dir[0].name != name { FoundIsIn(dir[1..], name); }
  }

  predicate Removable(dir: Directory, c: EntryInfo, check: Validity) {
    && IsEntryName(c.filename) && IsSha256Digest(c.entryKey)
    && Find(dir, c.filename).Some?
    && var f := Find(dir, c.filename).value; f.fileType.Regular? && Matches(f, c) && HoldsEntry(f, c, check)
  }

  lemma {:induction false} UndisturbedRemoval(
    s: Surroundings, check: Validity, i: nat, c: EntryInfo, dir: Directory, names: set<string>, kind: CacheKind,
        locks: seq<Target>, now: Directory)
    requires Undisturbed(s) && IsRest(dir, names, kind, locks, now) && AllRegular(now)
    requires Removable(dir, c, check) && c.filename !in names
    ensures var step := ExecuteOne(s, check, i, c, now);
            && step.item == Ok(ItemOf(c, Deleted))
            && IsRest(dir, names + {c.filename}, kind, locks, step.dir) && AllRegular(step.dir)
  {
    hide ExecuteOne, Find, Without, DistinctNames, HoldsEntry, Matches, IsLockName, IsEntryName;
    forall t | t in locks ensures t.name != c.filename { LockNamesAreNotEntries(kind, t.name); }
    Distinct(now);
    FindBefore(Without(dir, names), locks, c.filename);
    FindWithout(dir, names, c.filename);
    UndisturbedStep(s, check, i, c, now);
    WithoutBefore(Without(dir, names), locks, {c.filename});
    WithoutTwice(dir, names, {c.filename});
  }

  lemma Distinct(dir: Directory)
    ensures DistinctNames(dir)
  {
  }

  lemma {:induction false} UndisturbedRun(s: Surroundings, check: Validity, plan: PrunePlan, dir: Directory, n: nat)
    returns (locks: seq<Target>)
    requires Undisturbed(s) && n <= |plan.candidates| && DistinctFiles(plan.candidates) && AllRegular(dir)
    requires forall c | c in plan.candidates :: Removable(dir, c, check)
    ensures var run := RunTo(s, check, plan, dir, n);
            && run.failed.None? && |run.items| == n && AllDeleted(run.items)
            && IsRest(dir, Names(plan.candidates[..n]), plan.kind, locks, run.dir) && AllRegular(run.dir)
  {
    hide ExecuteOne, LockStep, Find, Without, DistinctNames, Removable, IsRest, AllRegular;
    if n == 0 {
      locks := [];
      assert Names(plan.candidates[..0]) == {};
      NothingRemoved(dir, plan.kind);
    } else {
      var soFar := UndisturbedRun(s, check, plan, dir, n - 1);
      var before, c := RunTo(s, check, plan, dir, n - 1), plan.candidates[n - 1];
      var gone := Names(plan.candidates[..n - 1]);
      assert c in plan.candidates && c.filename !in gone;
      RemovableKey(dir, c, check);
      locks := UndisturbedLock(s, plan.kind, n - 1, c, dir, gone, soFar, before.dir);
      UndisturbedRemoval(s, check, n - 1, c, dir, gone, plan.kind, locks,
          LockStep(s, plan.kind, n - 1, c, before.dir).dir);
      assert plan.candidates[..n] == plan.candidates[..n - 1] + [c];
      assert Names(plan.candidates[..n]) == gone + {c.filename};
    }
  }

  lemma RemovableKey(dir: Directory, c: EntryInfo, check: Validity)
    requires Removable(dir, c, check)
    ensures IsSha256Digest(c.entryKey)
  {
  }

  lemma NothingRemoved(dir: Directory, kind: CacheKind)
    ensures IsRest(dir, {}, kind, [], dir)
  {
    WithoutNone(dir);
    assert dir + [] == dir;
  }

  // ---------------------------------------------------------------- end to end

  /** A plan made from the directory as it still is: its candidates are distinct valid entries of it. */
  lemma {:induction false} CandidatesAreEntries(
      kind: CacheKind, check: Validity, dir: Directory, target: int, plan: PrunePlan)
    requires AllRegular(dir) && PlanFor(StatusAtRest(kind, check, dir), target, plan)
    ensures var ordered := Sort(EntryLe, EntriesOf(kind, check, Listing(dir)));
            && DistinctFiles(ordered) && |plan.candidates| <= |ordered|
                && plan.candidates == ordered[..|plan.candidates|]
            && Sorted(EntryLe, ordered)
            && forall c | c in plan.candidates :: c in EntriesOf(kind, check, Listing(dir))
  {
    hide ClassOf, EntryLe, EntriesOf, Count, Bytes, EntryBytes, Sort;
    var found := EntriesOf(kind, check, Listing(dir));
    var ordered := Sort(EntryLe, found);
    EntryOrders();
    SortSorts(EntryLe, found);
    SortOfSorted(ordered);
    EntriesAreDistinct(kind, check, dir);
    SortIsDistinct(found);
    SortPermutes(EntryLe, found);
    forall c | c in plan.candidates ensures c in found {
      assert c in ordered && c in multiset(ordered);
    }
  }

  /** New lock files are inventoried as empty locks. */
  lemma {:induction false} ScanWithLocks(
      kind: CacheKind, check: Validity, targets: seq<Target>, locks: seq<Target>, c: Class)
    requires NewLocks(kind, locks)
    ensures EntriesOf(kind, check, Listing(targets + locks)) == EntriesOf(kind, check, Listing(targets))
    ensures Count(kind, check, c, Listing(targets + locks)) == Count(kind, check, c, Listing(targets)) +
            if c.Lock? then |locks| else 0
    ensures Bytes(kind, check, c, Listing(targets + locks)) == Bytes(kind, check, c, Listing(targets))
    decreases |targets| + |locks|
  {
    hide ClassOf, Count, Bytes, EntriesOf, Listing, IsLockName;
    var all := targets + locks;
    CountListing(kind, check, all, c);
    EntriesListing(kind, check, all);
    CountListing(kind, check, targets, c);
    EntriesListing(kind, check, targets);
    if targets != [] {
      assert all[1..] == targets[1..] + locks;
      ScanWithLocks(kind, check, targets[1..], locks, c);
    } else if locks != [] {
      assert all == locks && all[1..] == targets + locks[1..];
      ScanWithLocks(kind, check, targets, locks[1..], c);
      ClassOfLock(kind, check, locks[0]);
    }
  }

  lemma ClassOfLock(kind: CacheKind, check: Validity, t: Target)
    requires IsLockName(kind, t.name)
    ensures ClassOf(kind, check, Shown(t)) == Lock
  {
    LockNamesAreNotEntries(kind, t.name);
  }

  /** The status of what is left, expressed in the status of the whole. */
  lemma {:induction false} StatusWithout(
      kind: CacheKind, check: Validity, dir: Directory, ordered: seq<EntryInfo>, n: nat)
    requires AllRegular(dir) && ordered == Sort(EntryLe, EntriesOf(kind, check, Listing(dir)))
            && DistinctFiles(ordered) && n <= |ordered|
    requires forall c | c in ordered[..n] :: c in EntriesOf(kind, check, Listing(dir))
    ensures var before, later := StatusAtRest(kind, check, dir),
            StatusAtRest(kind, check, Without(dir, Names(ordered[..n])));
            later == before.(entries := ordered[n..], validCount := |ordered| - n,
                validBytes := EntryBytes(ordered[n..]))
  {
    hide ClassOf, EntryLe, EntriesOf, Count, Bytes, EntryBytes, Find, Without, DistinctNames, Sort;
    var names := Names(ordered[..n]);
    EntryOrders();
    EntriesWithout(kind, check, dir, names);
    SortFilters(EntryLe, NotIn(names), EntriesOf(kind, check, Listing(dir)));
    RemovesExactlyThePrefix(ordered, n);
    forall t | t in dir && t.name in names ensures ClassOf(kind, check, Shown(t)).Valid? {
      var e :| e in ordered[..n] && e.filename == t.name;
      EntryIsFound(kind, check, dir, e);
      SameNameSameFile(dir);
    }
    CountsWithout(kind, check, dir, names, Corrupt);
    CountsWithout(kind, check, dir, names, Lock);
    CountsWithout(kind, check, dir, names, Temporary);
    CountsWithout(kind, check, dir, names, Unknown);
  }

  lemma SameNameSameFile(dir: Directory)
    ensures forall i, j | 0 <= i < |dir| && 0 <= j < |dir| && dir[i].name == dir[j].name :: i == j
  {
    assert DistinctNames(dir);
  }

  lemma {:induction false} StatusWithLocks(
      kind: CacheKind, check: Validity, dir: Directory, locks: seq<Target>, now: Directory)
    requires NewLocks(kind, locks) && now == dir + locks
    ensures StatusAtRest(kind, check, now) ==
            var s := StatusAtRest(kind, check, dir); s.(lockCount := s.lockCount + |locks|)
  {
    hide NewLocks, EntriesOf, Count, Bytes, Sort, EntryLe, EntryBytes, Listing;
    ScanWithLocks(kind, check, dir, locks, Corrupt);
    ScanWithLocks(kind, check, dir, locks, Lock);
    ScanWithLocks(kind, check, dir, locks, Temporary);
    ScanWithLocks(kind, check, dir, locks, Unknown);
  }

  /** What is left of a directory that could be inventoried, and new lock files, still can be. */
  lemma {:induction false} RestCanBeInventoried(
    kind: CacheKind, check: Validity, dir: Directory, names: set<string>, locks: seq<Target>, now: Directory)
    requires CanBeInventoried(kind, check, dir) && IsRest(dir, names, kind, locks, now)
    ensures CanBeInventoried(kind, check, now)
  {
    hide CanBeInventoried, ClassOf, FailureOf, IsLockName;
    InventoriedTargets(kind, check, dir);
    InventoriedTargets(kind, check, now);
    forall t | t in now ensures FailureOf(kind, check, Shown(t)).None? {
      if t in locks { LockIsFine(kind, check, t); }
    }
  }

  lemma LockIsFine(kind: CacheKind, check: Validity, t: Target)
    requires IsLockName(kind, t.name) && t.file == EMPTY_LOCK
    ensures FailureOf(kind, check, Shown(t)).None?
  {
    hide IsLockName, IsEntryName;
    LockNamesAreNotEntries(kind, t.name);
    ClassOfLock(kind, check, t);
  }

  lemma {:induction false} EntryIsRemovable(kind: CacheKind, check: Validity, dir: Directory, e: EntryInfo)
    requires AllRegular(dir) && e in EntriesOf(kind, check, Listing(dir))
    ensures Removable(dir, e, check)
  {
    hide EntriesOf;
    EntryIsFound(kind, check, dir, e);
    EntriesAreTheValidOnes(kind, check, Listing(dir), e);
  }

  /**
   Take an inventory, plan, execute undisturbed, take the inventory again: every candidate was
   deleted, the entries left are the plan's remainder in the same order with the expected count
   and bytes, and every other class of file is as before but for empty lock files the prune made.
   */
  lemma {:induction false} LaterStatusIsTheRemainder(
    s: Surroundings, kind: CacheKind, check: Validity, dir: Directory, target: int, plan: PrunePlan)
    requires Undisturbed(s) && CanBeInventoried(kind, check, dir)
            && PlanFor(StatusAtRest(kind, check, dir), target, plan)
    ensures CanBeInventoried(kind, check, RunTo(s, check, plan, dir, |plan.candidates|).dir)
    ensures var run := RunTo(s, check, plan, dir, |plan.candidates|);
            var before, later := StatusAtRest(kind, check, dir), StatusAtRest(kind, check, run.dir);
            && Conclude(s, plan, run) == Ok(Success(plan, run.items)) && AllDeleted(run.items)
            && plan.candidates + later.entries == before.entries
            && later.validCount == plan.remainingCount && later.validBytes == plan.remainingBytes <= target
            && before.lockCount <= later.lockCount
            && later == before.(entries := later.entries, validCount := later.validCount,
                validBytes := later.validBytes,
                                lockCount := later.lockCount)
  {
    hide RunTo, ClassOf, EntryLe, EntriesOf, Count, Bytes, EntryBytes, Find, Without, DistinctNames, Sort, DeletedItems,
         Removable, Undisturbed, AllRegular, StatusAtRest, CanBeInventoried, FirstFailure;
    InventoriedTargets(kind, check, dir);
    UnfoldStatus(kind, check, dir);
    CandidatesAreEntries(kind, check, dir, target, plan);
    var ordered, n := Sort(EntryLe, EntriesOf(kind, check, Listing(dir))), |plan.candidates|;
    forall c | c in plan.candidates ensures Removable(dir, c, check) { EntryIsRemovable(kind, check, dir, c); }
    var locks := UndisturbedRun(s, check, plan, dir, n);
    assert plan.candidates[..n] == plan.candidates;
    RestCanBeInventoried(kind, check, dir, Names(plan.candidates), locks, RunTo(s, check, plan, dir, n).dir);
    StatusWithout(kind, check, dir, ordered, n);
    StatusWithLocks(kind, check, Without(dir, Names(ordered[..n])), locks, RunTo(s, check, plan, dir, n).dir);
    BytesSplit(ordered, n);
    SortOfSorted(ordered);
    UndisturbedSyncs(s);
  }

  lemma UnfoldStatus(kind: CacheKind, check: Validity, dir: Directory)
    ensures var status, ordered := StatusAtRest(kind, check, dir), Sort(EntryLe, EntriesOf(kind, check, Listing(dir)));
            status.kind == kind && status.entries == ordered && status.validCount == |ordered|
                && status.validBytes == EntryBytes(ordered)
  {
  }

  lemma UndisturbedSyncs(s: Surroundings)
    requires Undisturbed(s)
    ensures s.syncs
  {
  }
}
