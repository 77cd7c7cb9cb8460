/**
 Planning the removal of the oldest cache entries
 (app/persistent_cache_maintenance.py, plan_prune; app/schemas/persistent_cache_status.py).
 */
module CachePruning {
  import opened Wrappers
  import opened Ordering
  import opened CacheInventory

  // ---------------------------------------------------------------- the plan

  datatype PrunePlan = PrunePlan(
    kind: CacheKind, target: int, observedCount: nat, observedBytes: nat, selectedCount: nat, selectedBytes: nat,
    remainingCount: int, remainingBytes: int, candidates: seq<EntryInfo>)

  /** n is the length of the shortest prefix whose removal leaves at most the target. */
  predicate ShortestPrefix(ordered: seq<EntryInfo>, total: nat, target: int, n: nat) {
    && n <= |ordered|
    && total - EntryBytes(ordered[..n]) <= target
    && forall k | 0 <= k < n :: total - EntryBytes(ordered[..k]) > target
  }

  predicate PlanFor(status: CacheStatus, target: int, plan: PrunePlan) {
    var ordered, n := Sort(EntryLe, status.entries), |plan.candidates|;
    && plan.kind == status.kind && plan.target == target
    && ShortestPrefix(ordered, status.validBytes, target, n) && plan.candidates == ordered[..n]
    && plan.selectedCount == n && plan.selectedBytes == EntryBytes(plan.candidates)
    && plan.observedCount == status.validCount == plan.selectedCount + plan.remainingCount
    && plan.observedBytes == status.validBytes == plan.selectedBytes + plan.remainingBytes
  }

  lemma {:induction false} BytesSplit(entries: seq<EntryInfo>, n: nat)
    requires n <= |entries|
    ensures EntryBytes(entries) == EntryBytes(entries[..n]) + EntryBytes(entries[n..])
  {
    if n > 0 {
      BytesSplit(entries[1..], n - 1);
      assert entries[..n][1..] == entries[1..][..n - 1] && entries[n..] == entries[1..][n - 1..];
    } else {
      assert entries[n..] == entries;
    }
  }

  lemma BytesOfNext(entries: seq<EntryInfo>, n: nat)
    requires n < |entries|
    ensures EntryBytes(entries[..n + 1]) == EntryBytes(entries[..n]) + entries[n].sizeBytes
  {
    BytesSplit(entries[..n + 1], n);
    assert entries[..n + 1][..n] == entries[..n] && entries[..n + 1][n..] == [entries[n]];
  }

  lemma PlanStarts(status: CacheStatus)
    requires ConsistentStatus(status)
    ensures EntryBytes([]) == 0
    ensures |Sort(EntryLe, status.entries)| == |status.entries| == status.validCount
    ensures EntryBytes(Sort(EntryLe, status.entries)) == status.validBytes
  {
    hide EntryLe, Sort;
    BytesOfSort(status.entries);
    SortPermutes(EntryLe, status.entries);
  }

  /** plan_prune; a status is always consistent, because its type validates itself. */
  method PlanPrune(status: CacheStatus, target: int) returns (r: Result<PrunePlan, string>)
    requires ConsistentStatus(status)
    ensures r.Err? <==> target < 0
    ensures r.Ok? ==> PlanFor(status, target, r.value)
  {
    hide EntryLe, EntryBytes, Sort, ConsistentStatus;
    if target < 0 { return Err("target_entry_bytes_total must be non-negative"); }
    var ordered := Sort(EntryLe, status.entries);
    PlanStarts(status);
    var selected: seq<EntryInfo> := [];
    var selectedBytes := 0;
    var remainingBytes := status.validBytes as int;
    assert ordered[..0] == [];
    if remainingBytes > target {
      var i := 0;
      while i < |ordered|
        invariant i <= |ordered| && selected == ordered[..i]
        invariant selectedBytes == EntryBytes(selected)
        invariant remainingBytes == status.validBytes - selectedBytes > target
        invariant forall k | 0 <= k <= i :: status.validBytes - EntryBytes(ordered[..k]) > target
      {
        var entry := ordered[i];
        BytesOfNext(ordered, i);
        selected := selected + [entry];
        selectedBytes := selectedBytes + entry.sizeBytes;
        remainingBytes := remainingBytes - entry.sizeBytes;
        i := i + 1;
        if remainingBytes <= target { break; }
      }
      assert ordered[..|ordered|] == ordered;
    }
    assert ShortestPrefix(ordered, status.validBytes, target, |selected|);
    assert selected == ordered[..|selected|];
    return Ok(PrunePlan(status.kind, target, status.validCount, status.validBytes, |selected|, selectedBytes,
                        status.validCount - |selected|, remainingBytes, selected));
  }

  lemma {:induction false} BytesGrow(entries: seq<EntryInfo>, m: nat, n: nat)
    requires m <= n <= |entries|
    ensures EntryBytes(entries[..m]) <= EntryBytes(entries[..n])
  {
    BytesSplit(entries[..n], m);
    assert entries[..n][..m] == entries[..m];
  }

  /** Of all the oldest-first prefixes, exactly those at least as long as the plan reach the target. */
  lemma {:induction false} PlanIsShortest(status: CacheStatus, target: int, plan: PrunePlan, k: nat)
    requires PlanFor(status, target, plan) && k <= |status.entries|
    ensures |Sort(EntryLe, status.entries)| == |status.entries|
    ensures status.validBytes - EntryBytes(Sort(EntryLe, status.entries)[..k]) <= target <==> |plan.candidates| <= k
  {
    hide EntryLe, EntryBytes;
    SortPermutes(EntryLe, status.entries);
    if |plan.candidates| <= k { BytesGrow(Sort(EntryLe, status.entries), |plan.candidates|, k); }
  }

  /** CachePrunePlan.validate_plan. */
  predicate SchemaAccepts(plan: PrunePlan) {
    && |plan.candidates| == plan.selectedCount
    && EntryBytes(plan.candidates) == plan.selectedBytes
    && (forall c | c in plan.candidates :: c.kind == plan.kind && c.mtimeNs >= 0)
    && Sort(EntryLe, plan.candidates) == plan.candidates
    && plan.remainingCount == plan.observedCount - plan.selectedCount
    && plan.remainingBytes == plan.observedBytes - plan.selectedBytes
    && if plan.observedBytes <= plan.target then plan.candidates == []
       else
         && plan.candidates != []
         && plan.remainingBytes <= plan.target
         && plan.remainingBytes + plan.candidates[|plan.candidates| - 1].sizeBytes > plan.target
  }

  lemma {:induction false} SortOfSorted(s: seq<EntryInfo>)
    requires Sorted(EntryLe, s)
    ensures Sort(EntryLe, s) == s
  {
    hide EntryLe;
    if s != [] {
      SortOfSorted(s[1..]);
      if |s| > 1 { assert EntryLe(s[0], s[1]); }
    }
  }

  lemma CandidatesAreSound(status: CacheStatus, n: nat)
    requires ConsistentStatus(status) && n <= |Sort(EntryLe, status.entries)|
    ensures forall c | c in Sort(EntryLe, status.entries)[..n] :: c.kind == status.kind && c.mtimeNs >= 0
  {
    hide EntryLe, Sort, EntryBytes;
    var ordered := Sort(EntryLe, status.entries);
    SortPermutes(EntryLe, status.entries);
    forall c | c in ordered[..n] ensures c.kind == status.kind && c.mtimeNs >= 0 {
      assert c in ordered && c in multiset(ordered) && c in status.entries;
    }
  }

  /** Every plan passes the schema's own validation, so plan_prune never raises for a non-negative target. */
  lemma {:induction false} PlanIsAccepted(status: CacheStatus, target: int, plan: PrunePlan)
    requires ConsistentStatus(status) && target >= 0 && PlanFor(status, target, plan)
    ensures SchemaAccepts(plan)
  {
    hide EntryLe, EntryBytes, Sort;
    var ordered, n := Sort(EntryLe, status.entries), |plan.candidates|;
    PlanStarts(status);
    EntryOrders();
    SortSorts(EntryLe, status.entries);
    SortOfSorted(plan.candidates);
    CandidatesAreSound(status, n);
    assert ordered[..0] == [];
    if n > 0 { BytesOfNext(ordered, n - 1); }
  }
}
