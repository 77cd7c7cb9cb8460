/**
 Filtering and aggregating audit events (app/audit_report.py): the integer part of a report.
 */
module AuditReport {
  import opened Wrappers
  import opened Ordering
  import opened Aggregation

  datatype Success = Success(model: string, timestamp: int, corrected: bool, tokens: Option<nat>)

  datatype Failure = Failure(model: string, timestamp: int, errorType: string, recoveryAction: string, retryable: bool)

  datatype Events = Events(successes: seq<Success>, failures: seq<Failure>)

  // ---------------------------------------------------------------- filtering

  datatype StatusFilter = All | SuccessOnly | FailureOnly

  /** since is inclusive, until exclusive. */
  datatype EventFilter = EventFilter(since: Option<int>, until: Option<int>, model: Option<string>,
      status: StatusFilter)

  predicate Passes(f: EventFilter, model: string, timestamp: int) {
    && (f.since.Some? ==> f.since.value <= timestamp)
    && (f.until.Some? ==> timestamp < f.until.value)
    && (f.model.Some? ==> model == f.model.value)
  }

  function KeepSuccess(f: EventFilter): Success -> bool {
    (e: Success) => !f.status.FailureOnly? && Passes(f, e.model, e.timestamp)
  }

  function KeepFailure(f: EventFilter): Failure -> bool {
    (e: Failure) => !f.status.SuccessOnly? && Passes(f, e.model, e.timestamp)
  }

  /** filter_audit_events */
  function FilterEvents(events: Events, f: EventFilter): Events {
    Events(Filter(KeepSuccess(f), events.successes), Filter(KeepFailure(f), events.failures))
  }

  /** The model is the wanted one and the time is in [since, until), an open end excluding nothing. */
  predicate Within(f: EventFilter, model: string, timestamp: int) {
    && (f.model == None || f.model == Some(model))
    && (f.since == None || timestamp >= f.since.value)
    && (f.until == None || timestamp < f.until.value)
  }

  /**
   A filtered list holds every wanted event as often as the list it came from, no other event,
   and all in the order they had.
   */
  lemma {:induction false} FilterKeepsWanted(
    earlier: Events, later: Events, f: EventFilter, success: Success, failure: Failure)
    ensures var all := Events(earlier.successes + later.successes, earlier.failures + later.failures);
            var kept, before, after := FilterEvents(all, f), FilterEvents(earlier, f), FilterEvents(later, f);
            && multiset(kept.successes)[success]
               == (if f.status != FailureOnly && Within(f, success.model, success.timestamp) then
                     multiset(all.successes)[success] else 0)
            && multiset(kept.failures)[failure]
               == (if f.status != SuccessOnly && Within(f, failure.model, failure.timestamp) then
                     multiset(all.failures)[failure] else 0)
            && kept.successes == before.successes + after.successes
            && kept.failures == before.failures + after.failures
  {
    hide Filter;
    FilterKeepsExactly(KeepSuccess(f), earlier.successes + later.successes, success);
    FilterKeepsExactly(KeepFailure(f), earlier.failures + later.failures, failure);
    FilterOfConcat(KeepSuccess(f), earlier.successes, later.successes);
    FilterOfConcat(KeepFailure(f), earlier.failures, later.failures);
  }

  // ---------------------------------------------------------------- what is counted

  function One<T>(x: T): nat { 1 }
  function CorrectedOf(e: Success): nat { if e.corrected then 1 else 0 }
  function UsageOf(e: Success): nat { if e.tokens.Some? then 1 else 0 }
  function TokensOf(e: Success): nat { if e.tokens.Some? then e.tokens.value else 0 }
  function RetryableOf(e: Failure): nat { if e.retryable then 1 else 0 }
  function NonRetryableOf(e: Failure): nat { if e.retryable then 0 else 1 }
  function SuccessModel(e: Success): string { e.model }
  function FailureModel(e: Failure): string { e.model }
  function ErrorType(e: Failure): string { e.errorType }
  function RecoveryAction(e: Failure): string { e.recoveryAction }

  datatype Totals = Totals(
    success: nat, failure: nat, corrected: nat, usageEvents: nat, tokens: nat, retryable: nat, nonRetryable: nat)

  function TotalsOf(events: Events): Totals {
    Totals(|events.successes|, |events.failures|, SumOf(CorrectedOf, events.successes),
        SumOf(UsageOf, events.successes),
           SumOf(TokensOf, events.successes), SumOf(RetryableOf, events.failures),
               SumOf(NonRetryableOf, events.failures))
  }

  lemma {:induction false} SumOfNext<T>(weight: T -> nat, s: seq<T>, x: T)
    ensures SumOf(weight, s + [x]) == SumOf(weight, s) + weight(x)
  {
    if s == [] {
      assert s + [x] == [x] && [x][1..] == [];
    } else {
      assert (s + [x])[1..] == s[1..] + [x];
      SumOfNext(weight, s[1..], x);
    }
  }

  /** The totals from the first event on: nothing counts for nothing, and each event moves its own counters. */
  lemma {:induction false} EachEventCounts(events: Events, s: Success, f: Failure)
    ensures TotalsOf(Events([], [])) == Totals(0, 0, 0, 0, 0, 0, 0)
    ensures var t := TotalsOf(events);
            TotalsOf(events.(successes := events.successes + [s]))
            == t.(success := t.success + 1,
                  corrected := t.corrected + (if s.corrected then 1 else 0),
                  usageEvents := t.usageEvents + (if s.tokens == None then 0 else 1),
                  tokens := t.tokens + (match s.tokens case Some(n) => n case None => 0))
    ensures var t := TotalsOf(events);
            TotalsOf(events.(failures := events.failures + [f]))
            == if f.retryable then t.(failure := t.failure + 1, retryable := t.retryable + 1)
               else t.(failure := t.failure + 1, nonRetryable := t.nonRetryable + 1)
  {
    SumOfNext(CorrectedOf, events.successes, s);
    SumOfNext(UsageOf, events.successes, s);
    SumOfNext(TokensOf, events.successes, s);
    SumOfNext(RetryableOf, events.failures, f);
    SumOfNext(NonRetryableOf, events.failures, f);
  }

  // ---------------------------------------------------------------- counters

  lemma {:induction false} GroupSumOfNext<T>(key: T -> string, weight: T -> nat, name: string, s: seq<T>, x: T)
    ensures GroupSum(key, weight, name, s + [x]) == GroupSum(key, weight, name, s) + Weigh(key, weight, name, x)
  {
    if s == [] {
      assert [x][1..] == [];
    } else {
      assert (s + [x])[1..] == s[1..] + [x];
      GroupSumOfNext(key, weight, name, s[1..], x);
    }
  }

  /** Counter(key(event) for event in events) */
  method CountBy<T>(key: T -> string, events: seq<T>) returns (counter: map<string, nat>)
    ensures forall k :: k in counter <==> exists i | 0 <= i < |events| :: key(events[i]) == k
    ensures forall k | k in counter :: counter[k] == GroupSum(key, One, k, events)
  {
    counter := map[];
    for n := 0 to |events|
      invariant forall k :: k in counter <==> exists i | 0 <= i < n :: key(events[i]) == k
      invariant forall k :: GroupSum(key, One, k, events[..n]) == if k in counter then counter[k] else 0
    {
      var name := key(events[n]);
      forall k ensures GroupSum(key, One, k, events[..n + 1]) == GroupSum(key, One, k, events[..n]) +
          if k == name then 1 else 0 {
        assert events[..n + 1] == events[..n] + [events[n]];
        GroupSumOfNext(key, One, k, events[..n], events[n]);
      }
      counter := counter[name := (if name in counter then counter[name] else 0) + 1];
    }
    assert events[..|events|] == events;
  }

  lemma {:induction false} DistinctCountsOnce<T>(s: seq<T>, x: T)
    requires Distinct(s) && x in s
    ensures multiset(s)[x] == 1
  {
    assert s == [s[0]] + s[1..];
    if x in s[1..] {
      var j :| 0 <= j < |s[1..]| && s[1..][j] == x;
      assert s[0] != s[j + 1];
      forall i, k | 0 <= i < k < |s[1..]| ensures s[1..][i] != s[1..][k] { assert s[i + 1] != s[k + 1]; }
      DistinctCountsOnce(s[1..], x);
    }
  }

  lemma CountsOnceDistinct<T>(s: seq<T>)
    requires forall x | x in s :: multiset(s)[x] == 1
    ensures Distinct(s)
  {
    forall i, j | 0 <= i < j < |s| ensures s[i] != s[j] {
      assert s == s[..j] + s[j..];
      assert s[i] in s[..j] && s[j] in s[j..];
      assert multiset(s)[s[j]] == multiset(s[..j])[s[j]] + multiset(s[j..])[s[j]];
    }
  }

  lemma {:induction false} SortKeepsDistinct<T(!new)>(le: (T, T) -> bool, s: seq<T>)
    requires Distinct(s)
    ensures Distinct(Sort(le, s)) && forall x :: x in Sort(le, s) <==> x in s
  {
    hide Sort;
    SortPermutes(le, s);
    forall x | x in Sort(le, s) ensures multiset(Sort(le, s))[x] == 1 {
      assert x in multiset(Sort(le, s));
      DistinctCountsOnce(s, x);
    }
    CountsOnceDistinct(Sort(le, s));
    forall x ensures x in Sort(le, s) <==> x in s {
      assert x in Sort(le, s) <==> x in multiset(Sort(le, s));
      assert x in s <==> x in multiset(s);
    }
  }

  /** sorted(names) */
  method SortedNames(names: set<string>) returns (r: seq<string>)
    ensures Sorted(LexLe, r) && Distinct(r) && forall n :: n in r <==> n in names
  {
    hide Sort, LexLe;
    var rest, listed := names, [];
    while rest != {}
      invariant Distinct(listed) && rest <= names
      invariant forall n :: n in listed <==> n in names && n !in rest
    {
      var n :| n in rest;
      rest, listed := rest - {n}, listed + [n];
    }
    r := Sort(LexLe, listed);
    SortKeepsDistinct(LexLe, listed);
    LexOrders();
    SortSorts(LexLe, listed);
  }

  datatype CountRow = CountRow(name: string, count: nat)

  /** Most frequent first, ties by name. */
  predicate RowLe(a: CountRow, b: CountRow) {
    a.count > b.count || (a.count == b.count && LexLe(a.name, b.name))
  }

  lemma RowOrders()
    ensures TotalPreorder(RowLe)
  {
    forall x, y ensures RowLe(x, y) || RowLe(y, x) { LexTotal(x.name, y.name); }
    forall x, y, z | RowLe(x, y) && RowLe(y, z) ensures RowLe(x, z) {
      if x.count == y.count == z.count { LexTransitive(x.name, y.name, z.name); }
    }
  }

  function RowNames(rows: seq<CountRow>): (names: seq<string>)
    ensures |names| == |rows| && forall i | 0 <= i < |rows| :: names[i] == rows[i].name
  {
    seq(|rows|, i requires 0 <= i < |rows| => rows[i].name)
  }

  /** The rows list each key once with its number of occurrences, in report order. */
  ghost predicate CountsEvents<T(!new)>(rows: seq<CountRow>, key: T -> string, events: seq<T>) {
    && Sorted(RowLe, rows) && Distinct(RowNames(rows))
    && (forall e | e in events :: key(e) in RowNames(rows))
    && (forall row | row in rows :: row.count == GroupSum(key, One, row.name, events) >= 1)
  }

  /** _sorted_counter */
  method SortedCounter(counter: map<string, nat>) returns (rows: seq<CountRow>)
    ensures Sorted(RowLe, rows) && Distinct(RowNames(rows))
    ensures forall row :: row in rows <==> row.name in counter && row.count == counter[row.name]
  {
    hide Sort, RowLe;
    var rest, listed := counter.Keys, [];
    while rest != {}
      invariant Distinct(listed) && rest <= counter.Keys
      invariant forall row: CountRow :: row in listed <==>
        row.name in counter && row.name !in rest && row.count == counter[row.name]
    {
      var n :| n in rest;
      rest, listed := rest - {n}, listed + [CountRow(n, counter[n])];
    }
    rows := Sort(RowLe, listed);
    SortKeepsDistinct(RowLe, listed);
    RowOrders();
    SortSorts(RowLe, listed);
    forall i, j | 0 <= i < j < |rows| ensures rows[i].name != rows[j].name {
      assert rows[i] in rows && rows[j] in rows && rows[i] != rows[j];
    }
  }

  lemma {:induction false} PresentCountsAtLeastOne<T>(key: T -> string, events: seq<T>, i: nat)
    requires i < |events|
    ensures GroupSum(key, One, key(events[i]), events) >= 1
  {
    if i > 0 { PresentCountsAtLeastOne(key, events[1..], i - 1); }
  }

  method CountRows<T(!new)>(key: T -> string, events: seq<T>) returns (rows: seq<CountRow>)
    ensures CountsEvents(rows, key, events)
  {
    hide Sorted, RowLe;
    var counter := CountBy(key, events);
    rows := SortedCounter(counter);
    forall e | e in events ensures key(e) in RowNames(rows) {
      var i :| 0 <= i < |events| && events[i] == e;
      assert key(e) in counter;
      assert CountRow(key(e), counter[key(e)]) in rows;
      var j :| 0 <= j < |rows| && rows[j] == CountRow(key(e), counter[key(e)]);
      assert RowNames(rows)[j] == key(e);
    }
    forall row | row in rows ensures row.count == GroupSum(key, One, row.name, events) >= 1 {
      var i :| 0 <= i < |events| && key(events[i]) == row.name;
      PresentCountsAtLeastOne(key, events, i);
    }
  }

  // ---------------------------------------------------------------- per model

  datatype ModelStats = ModelStats(model: string, totalEvents: nat, successCount: nat, failureCount: nat, tokens: nat)

  function OfModel(model: string): Success -> bool {
    (e: Success) => e.model == model
  }

  function StatsFor(model: string, events: Events): ModelStats {
    var success, failure := GroupSum(SuccessModel, One, model, events.successes),
        GroupSum(FailureModel, One, model, events.failures);
    ModelStats(model, success + failure, success, failure, GroupSum(SuccessModel, TokensOf, model, events.successes))
  }

  function StatNames(stats: seq<ModelStats>): (names: seq<string>)
    ensures |names| == |stats| && forall i | 0 <= i < |stats| :: names[i] == stats[i].model
  {
    seq(|stats|, i requires 0 <= i < |stats| => stats[i].model)
  }

  /** One entry per model that occurs, in name order, each with its own counts. */
  ghost predicate DescribesModels(stats: seq<ModelStats>, events: Events) {
    && Sorted(LexLe, StatNames(stats)) && Distinct(StatNames(stats))
    && (forall e | e in events.successes :: e.model in StatNames(stats))
    && (forall e | e in events.failures :: e.model in StatNames(stats))
    && (forall s | s in stats :: s == StatsFor(s.model, events) && s.totalEvents >= 1)
  }

  ghost predicate Indexes<T>(keys: set<string>, key: T -> string, events: seq<T>) {
    forall k :: k in keys <==> exists i | 0 <= i < |events| :: key(events[i]) == k
  }

  ghost predicate GroupsByModel(byModel: map<string, seq<Success>>, successes: seq<Success>) {
    forall k :: (if k in byModel then byModel[k] else []) == Filter(OfModel(k), successes)
  }

  lemma GroupStart()
    ensures GroupsByModel(map[], [])
  {
  }

  lemma GroupNext(byModel: map<string, seq<Success>>, successes: seq<Success>, e: Success)
    requires GroupsByModel(byModel, successes)
    ensures GroupsByModel(byModel[e.model := (if e.model in byModel then byModel[e.model] else []) + [e]], successes
            + [e])
  {
    hide Filter;
    forall k ensures Filter(OfModel(k), successes + [e]) == Filter(OfModel(k), successes) + if k == e.model then [e]
        else [] {
      FilterOfNext(OfModel(k), successes, e);
    }
  }

  /** success_by_model */
  method GroupSuccesses(successes: seq<Success>) returns (byModel: map<string, seq<Success>>)
    ensures Indexes(byModel.Keys, SuccessModel, successes) && GroupsByModel(byModel, successes)
  {
    hide GroupsByModel;
    byModel := map[];
    GroupStart();
    assert successes[..0] == [];
    for n := 0 to |successes|
      invariant forall k :: k in byModel <==> exists i | 0 <= i < n :: successes[i].model == k
      invariant GroupsByModel(byModel, successes[..n])
    {
      var e := successes[n];
      assert successes[..n + 1] == successes[..n] + [e];
      GroupNext(byModel, successes[..n], e);
      byModel := byModel[e.model := (if e.model in byModel then byModel[e.model] else []) + [e]];
    }
    assert successes[..|successes|] == successes;
  }

  lemma GroupOfModel(model: string, successes: seq<Success>)
    ensures |Filter(OfModel(model), successes)| == GroupSum(SuccessModel, One, model, successes)
    ensures SumOf(TokensOf, Filter(OfModel(model), successes)) == GroupSum(SuccessModel, TokensOf, model, successes)
  {
    SumOfFiltered(SuccessModel, One, model, OfModel(model), successes);
    SumOfFiltered(SuccessModel, TokensOf, model, OfModel(model), successes);
    CountIsLength(One, Filter(OfModel(model), successes));
  }

  ghost predicate CountsByModel(counter: map<string, nat>, failures: seq<Failure>) {
    && Indexes(counter.Keys, FailureModel, failures)
    && forall k | k in counter :: counter[k] == GroupSum(FailureModel, One, k, failures)
  }

  /** What one round of the statistics loop computes for a model that occurs. */
  lemma RoundIsStatsFor(byModel: map<string, seq<Success>>, counter: map<string, nat>, model: string, events: Events)
    requires Indexes(byModel.Keys, SuccessModel, events.successes) && GroupsByModel(byModel, events.successes)
    requires CountsByModel(counter, events.failures)
    requires model in byModel.Keys + counter.Keys
    ensures var successes, failureCount := if model in byModel then byModel[model] else [],
            if model in counter then counter[model] else 0;
            && ModelStats(model, |successes| + failureCount, |successes|, failureCount, SumOf(TokensOf, successes)) ==
                StatsFor(model, events)
            && |successes| + failureCount >= 1
  {
    hide GroupSum, SumOf, Filter;
    GroupOfModel(model, events.successes);
    AbsentCountsZero(FailureModel, model, events.failures);
    if model in byModel {
      var i :| 0 <= i < |events.successes| && SuccessModel(events.successes[i]) == model;
      PresentCountsAtLeastOne(SuccessModel, events.successes, i);
    } else {
      var i :| 0 <= i < |events.failures| && FailureModel(events.failures[i]) == model;
      PresentCountsAtLeastOne(FailureModel, events.failures, i);
    }
  }

  lemma OccurringModelsListed(events: Events, keys: set<string>, more: set<string>, names: seq<string>)
    requires Indexes(keys, SuccessModel, events.successes) && Indexes(more, FailureModel, events.failures)
    requires forall n :: n in names <==> n in keys + more
    ensures forall e | e in events.successes :: e.model in names
    ensures forall e | e in events.failures :: e.model in names
  {
    forall e | e in events.successes ensures e.model in names {
      var i :| 0 <= i < |events.successes| && events.successes[i] == e;
      assert SuccessModel(events.successes[i]) in keys;
    }
    forall e | e in events.failures ensures e.model in names {
      var i :| 0 <= i < |events.failures| && events.failures[i] == e;
      assert FailureModel(events.failures[i]) in more;
    }
  }

  /** _build_model_stats */
  method BuildModelStats(events: Events) returns (stats: seq<ModelStats>)
    ensures DescribesModels(stats, events)
  {
    hide Sorted, LexLe, Filter, GroupSum, Indexes, GroupsByModel, StatsFor, SumOf;
    var successByModel := GroupSuccesses(events.successes);
    var failureByModel := CountFailures(events.failures);
    var modelNames := SortedNames(successByModel.Keys + failureByModel.Keys);
    stats := [];
    for n := 0 to |modelNames|
      invariant StatNames(stats) == modelNames[..n]
      invariant forall i | 0 <= i < |stats| :: stats[i] == StatsFor(stats[i].model, events) && stats[i].totalEvents >= 1
    {
      var model := modelNames[n];
      assert model in modelNames;
      RoundIsStatsFor(successByModel, failureByModel, model, events);
      var modelSuccesses := if model in successByModel then successByModel[model] else [];
      var failureCount := if model in failureByModel then failureByModel[model] else 0;
      stats := stats + [ModelStats(model, |modelSuccesses| + failureCount, |modelSuccesses|, failureCount,
          SumOf(TokensOf, modelSuccesses))];
    }
    assert StatNames(stats) == modelNames;
    OccurringModelsListed(events, successByModel.Keys, failureByModel.Keys, modelNames);
  }

  /** failure_by_model */
  method CountFailures(failures: seq<Failure>) returns (counter: map<string, nat>)
    ensures CountsByModel(counter, failures)
  {
    hide GroupSum;
    counter := CountBy(FailureModel, failures);
  }

  lemma {:induction false} AbsentCountsZero<T>(key: T -> string, name: string, events: seq<T>)
    ensures (forall i | 0 <= i < |events| :: key(events[i]) != name) ==> GroupSum(key, One, name, events) == 0
  {
    if events != [] { AbsentCountsZero(key, name, events[1..]); }
  }

  // ---------------------------------------------------------------- the report

  datatype Report = Report(
    totalEvents: nat, totals: Totals, errors: seq<CountRow>, actions: seq<CountRow>, models: seq<ModelStats>)

  /** build_audit_report */
  method BuildAuditReport(events: Events) returns (r: Report)
    ensures Describes(r, events)
  {
    hide CountsEvents, DescribesModels;
    var errors := CountRows(ErrorType, events.failures);
    var actions := CountRows(RecoveryAction, events.failures);
    var models := BuildModelStats(events);
    r := Report(|events.successes| + |events.failures|, TotalsOf(events), errors, actions, models);
  }

  ghost predicate Describes(r: Report, events: Events) {
    && r.totalEvents == |events.successes| + |events.failures|
    && r.totals == TotalsOf(events)
    && CountsEvents(r.errors, ErrorType, events.failures)
    && CountsEvents(r.actions, RecoveryAction, events.failures)
    && DescribesModels(r.models, events)
  }

  function SumCounts(rows: seq<CountRow>): nat {
    if rows == [] then 0 else rows[0].count + SumCounts(rows[1..])
  }

  function SumStats(field: ModelStats -> nat, stats: seq<ModelStats>): nat {
    SumOf(field, stats)
  }

  function StatTotal(s: ModelStats): nat { s.totalEvents }
  function StatSuccess(s: ModelStats): nat { s.successCount }
  function StatFailure(s: ModelStats): nat { s.failureCount }
  function StatTokens(s: ModelStats): nat { s.tokens }

  /** The integer checks of AuditReportPayload.validate_report_invariants and of the parts it is made of. */
  predicate SchemaAccepts(r: Report) {
    && r.totalEvents == r.totals.success + r.totals.failure
    && r.totals.corrected <= r.totals.success
    && r.totals.usageEvents <= r.totals.success
    && r.totals.retryable + r.totals.nonRetryable == r.totals.failure
    && SumCounts(r.errors) == r.totals.failure
    && SumCounts(r.actions) == r.totals.failure
    && SumStats(StatTotal, r.models) == r.totalEvents
    && SumStats(StatSuccess, r.models) == r.totals.success
    && SumStats(StatFailure, r.models) == r.totals.failure
    && SumStats(StatTokens, r.models) == r.totals.tokens
    && Distinct(RowNames(r.errors)) && Distinct(RowNames(r.actions)) && Distinct(StatNames(r.models))
    && (forall row | row in r.errors + r.actions :: row.count >= 1)
    && (forall s | s in r.models :: s.totalEvents == s.successCount + s.failureCount)
  }

  lemma {:induction false} RowsSum<T>(rows: seq<CountRow>, key: T -> string, events: seq<T>)
    requires forall row | row in rows :: row.count == GroupSum(key, One, row.name, events)
    ensures SumCounts(rows) == SumOverNames(key, One, RowNames(rows), events)
  {
    if rows != [] {
      RowsSum(rows[1..], key, events);
      assert RowNames(rows)[1..] == RowNames(rows[1..]);
    }
  }

  lemma {:induction false} RowsConserve<T(!new)>(rows: seq<CountRow>, key: T -> string, events: seq<T>)
    requires CountsEvents(rows, key, events)
    ensures SumCounts(rows) == |events|
  {
    RowsSum(rows, key, events);
    GroupsConserve(key, One, RowNames(rows), events);
    CountIsLength(One, events);
  }

  lemma {:induction false} StatsSum<T>(
    stats: seq<ModelStats>, field: ModelStats -> nat, key: T -> string, weight: T -> nat, events: seq<T>)
    requires forall s | s in stats :: field(s) == GroupSum(key, weight, s.model, events)
    ensures SumOf(field, stats) == SumOverNames(key, weight, StatNames(stats), events)
  {
    if stats != [] {
      StatsSum(stats[1..], field, key, weight, events);
      assert StatNames(stats)[1..] == StatNames(stats[1..]);
    }
  }

  lemma {:induction false} ModelsConserve(stats: seq<ModelStats>, events: Events)
    requires DescribesModels(stats, events)
    ensures SumStats(StatTotal, stats) == |events.successes| + |events.failures|
    ensures SumStats(StatSuccess, stats) == |events.successes|
    ensures SumStats(StatFailure, stats) == |events.failures|
    ensures SumStats(StatTokens, stats) == SumOf(TokensOf, events.successes)
  {
    hide GroupSum, SumOf, Sorted, LexLe;
    StatsSum(stats, StatSuccess, SuccessModel, One, events.successes);
    StatsSum(stats, StatFailure, FailureModel, One, events.failures);
    StatsSum(stats, StatTokens, SuccessModel, TokensOf, events.successes);
    GroupsConserve(SuccessModel, One, StatNames(stats), events.successes);
    GroupsConserve(FailureModel, One, StatNames(stats), events.failures);
    GroupsConserve(SuccessModel, TokensOf, StatNames(stats), events.successes);
    CountIsLength(One, events.successes);
    CountIsLength(One, events.failures);
    TotalsAddUp(stats, events);
  }

  lemma {:induction false} TotalsAddUp(stats: seq<ModelStats>, events: Events)
    requires forall s | s in stats :: s == StatsFor(s.model, events)
    ensures SumOf(StatTotal, stats) == SumOf(StatSuccess, stats) + SumOf(StatFailure, stats)
  {
    hide GroupSum;
    if stats != [] { TotalsAddUp(stats[1..], events); }
  }

  /** Every report of every event list passes the schema's own cross checks: nothing is lost or counted twice. */
  lemma {:induction false} ReportIsAccepted(r: Report, events: Events)
    requires Describes(r, events)
    ensures SchemaAccepts(r)
  {
    hide SumOf, GroupSum, SumCounts, SumStats, Sorted, LexLe, RowLe;
    RowsConserve(r.errors, ErrorType, events.failures);
    RowsConserve(r.actions, RecoveryAction, events.failures);
    ModelsConserve(r.models, events);
    SumIsMonotone(CorrectedOf, One, events.successes);
    SumIsMonotone(UsageOf, One, events.successes);
    CountIsLength(One, events.successes);
    SumsAdd(RetryableOf, NonRetryableOf, One, events.failures);
    CountIsLength(One, events.failures);
  }

  // ---------------------------------------------------------------- what a report says

  /** The rows list the numbers of failures per value of one field, largest first, ties by name. */
  ghost predicate RowsSay(rows: seq<CountRow>, field: Failure -> string, failures: seq<Failure>) {
    && (forall f | f in failures :: exists row | row in rows :: row.name == field(f))
    && (forall row | row in rows :: row.count == |Filter((f: Failure) => field(f) == row.name, failures)| >= 1)
    && (forall i, j | 0 <= i < j < |rows| ::
          || rows[i].count > rows[j].count
          || (rows[i].count == rows[j].count && rows[i].name != rows[j].name && LexLe(rows[i].name, rows[j].name)))
  }

  /** An entry holds the numbers of one model's own events, and the tokens of its successes. */
  ghost predicate StatsSay(s: ModelStats, events: Events) {
    var successes := Filter((e: Success) => e.model == s.model, events.successes);
    && s.successCount == |successes|
    && s.failureCount == |Filter((e: Failure) => e.model == s.model, events.failures)|
    && s.totalEvents == s.successCount + s.failureCount >= 1
    && s.tokens == SumOf(TokensOf, successes)
  }

  lemma {:induction false} CountIsFiltered<T>(key: T -> string, name: string, keep: T -> bool, events: seq<T>)
    requires forall e :: keep(e) <==> key(e) == name
    ensures GroupSum(key, One, name, events) == |Filter(keep, events)|
  {
    SumOfFiltered(key, One, name, keep, events);
    CountIsLength(One, Filter(keep, events));
  }

  lemma {:induction false} RowsAreCounts(rows: seq<CountRow>, key: Failure -> string, failures: seq<Failure>)
    requires CountsEvents(rows, key, failures)
    ensures RowsSay(rows, key, failures)
  {
    hide LexLe, Filter, GroupSum;
    forall f | f in failures ensures exists row | row in rows :: row.name == key(f) {
      assert key(f) in RowNames(rows);
      var i :| 0 <= i < |rows| && RowNames(rows)[i] == key(f);
      assert rows[i] in rows;
    }
    forall row | row in rows ensures row.count == |Filter((f: Failure) => key(f) == row.name, failures)| >= 1 {
      CountIsFiltered(key, row.name, (f: Failure) => key(f) == row.name, failures);
    }
    forall i, j | 0 <= i < j < |rows| ensures rows[i].name != rows[j].name {
      assert RowNames(rows)[i] != RowNames(rows)[j];
    }
  }

  /** Read as a table: failures per error type and per recovery action, and each model's own numbers. */
  lemma {:induction false} ReportReads(r: Report, events: Events)
    requires Describes(r, events)
    ensures r.totalEvents == |events.successes| + |events.failures|
    ensures RowsSay(r.errors, (f: Failure) => f.errorType, events.failures)
    ensures RowsSay(r.actions, (f: Failure) => f.recoveryAction, events.failures)
    ensures forall s | s in r.models :: StatsSay(s, events)
    ensures forall i, j | 0 <= i < j < |r.models| ::
              r.models[i].model != r.models[j].model && LexLe(r.models[i].model, r.models[j].model)
  {
    hide LexLe, Filter, GroupSum, SumOf, RowsSay, CountsEvents;
    SameRows(r.errors, ErrorType, (f: Failure) => f.errorType, events.failures);
    SameRows(r.actions, RecoveryAction, (f: Failure) => f.recoveryAction, events.failures);
    forall s | s in r.models ensures StatsSay(s, events) { StatsAreCounts(s, events); }
    forall i, j | 0 <= i < j < |r.models|
      ensures r.models[i].model != r.models[j].model && LexLe(r.models[i].model, r.models[j].model)
    {
      assert StatNames(r.models)[i] == r.models[i].model && StatNames(r.models)[j] == r.models[j].model;
    }
  }

  lemma {:induction false} SameRows(
    rows: seq<CountRow>, key: Failure -> string, field: Failure -> string, failures: seq<Failure>)
    requires CountsEvents(rows, key, failures) && forall f :: key(f) == field(f)
    ensures RowsSay(rows, field, failures)
  {
    hide LexLe, Filter, GroupSum, RowsSay;
    forall row | row in rows
      ensures GroupSum(key, One, row.name, failures) == GroupSum(field, One, row.name, failures)
    {
      CountIsFiltered(key, row.name, (f: Failure) => key(f) == row.name, failures);
      CountIsFiltered(field, row.name, (f: Failure) => key(f) == row.name, failures);
    }
    RowsAreCounts(rows, field, failures);
  }

  lemma {:induction false} StatsAreCounts(s: ModelStats, events: Events)
    requires s == StatsFor(s.model, events) && s.totalEvents >= 1
    ensures StatsSay(s, events)
  {
    hide Filter, GroupSum, SumOf;
    var keep := (e: Success) => e.model == s.model;
    CountIsFiltered(SuccessModel, s.model, keep, events.successes);
    CountIsFiltered(FailureModel, s.model, (e: Failure) => e.model == s.model, events.failures);
    SumOfFiltered(SuccessModel, TokensOf, s.model, keep, events.successes);
  }

  // ---------------------------------------------------------------- adjacent windows

  function Plus(a: Totals, b: Totals): Totals {
    Totals(a.success + b.success, a.failure + b.failure, a.corrected + b.corrected, a.usageEvents + b.usageEvents,
           a.tokens + b.tokens, a.retryable + b.retryable, a.nonRetryable + b.nonRetryable)
  }

  /** [a, b) followed by [b, c), either end open. */
  predicate Adjacent(whole: EventFilter, left: EventFilter, right: EventFilter) {
    && left == whole.(until := left.until) && right == whole.(since := right.since)
    && left.until.Some? && left.until == right.since
    && (whole.since.Some? ==> whole.since.value <= left.until.value)
    && (whole.until.Some? ==> left.until.value <= whole.until.value)
  }

  lemma {:induction false} WindowSums(
    events: Events, whole: EventFilter, left: EventFilter, right: EventFilter, sw: Success -> nat, fw: Failure -> nat)
    requires Adjacent(whole, left, right)
    ensures SumOf(sw, FilterEvents(events, whole).successes)
            == SumOf(sw, FilterEvents(events, left).successes) + SumOf(sw, FilterEvents(events, right).successes)
    ensures SumOf(fw, FilterEvents(events, whole).failures)
            == SumOf(fw, FilterEvents(events, left).failures) + SumOf(fw, FilterEvents(events, right).failures)
  {
    SumOfSplit(sw, KeepSuccess(whole), KeepSuccess(left), KeepSuccess(right), events.successes);
    SumOfSplit(fw, KeepFailure(whole), KeepFailure(left), KeepFailure(right), events.failures);
  }

  /** The totals of two adjacent half-open windows add to those of the window they make up. */
  lemma {:induction false} WindowsAdd(events: Events, whole: EventFilter, left: EventFilter, right: EventFilter)
    requires Adjacent(whole, left, right)
    ensures TotalsOf(FilterEvents(events, whole)) ==
            Plus(TotalsOf(FilterEvents(events, left)), TotalsOf(FilterEvents(events, right)))
  {
    hide SumOf, FilterEvents, Adjacent;
    WindowSums(events, whole, left, right, One, One);
    WindowSums(events, whole, left, right, CorrectedOf, RetryableOf);
    WindowSums(events, whole, left, right, UsageOf, NonRetryableOf);
    WindowSums(events, whole, left, right, TokensOf, One);
    forall f: EventFilter ensures SumOf(One, FilterEvents(events, f).successes) == |FilterEvents(events, f).successes|
                                  && SumOf(One, FilterEvents(events, f).failures) ==
                                      |FilterEvents(events, f).failures| {
      CountIsLength(One, FilterEvents(events, f).successes);
      CountIsLength(One, FilterEvents(events, f).failures);
    }
  }

  lemma {:induction false} GroupSumIsSum<T>(
      key: T -> string, weight: T -> nat, name: string, weigh: T -> nat, s: seq<T>)
    requires forall x :: weigh(x) == Weigh(key, weight, name, x)
    ensures GroupSum(key, weight, name, s) == SumOf(weigh, s)
  {
    if s != [] { GroupSumIsSum(key, weight, name, weigh, s[1..]); }
  }

  /** So do the counts of every single error type, recovery action and model. */
  lemma {:induction false} WindowGroupsAdd(
    events: Events, whole: EventFilter, left: EventFilter, right: EventFilter, name: string, sw: Success -> nat,
        key: Failure -> string)
    requires Adjacent(whole, left, right)
    ensures var a, b, c := FilterEvents(events, left), FilterEvents(events, right), FilterEvents(events, whole);
            && GroupSum(SuccessModel, sw, name, c.successes)
               == GroupSum(SuccessModel, sw, name, a.successes) + GroupSum(SuccessModel, sw, name, b.successes)
            && GroupSum(key, One, name, c.failures) == GroupSum(key, One, name, a.failures)
                + GroupSum(key, One, name, b.failures)
  {
    hide SumOf, GroupSum, FilterEvents, Adjacent;
    var success := (e: Success) => Weigh(SuccessModel, sw, name, e);
    var failure := (e: Failure) => Weigh(key, One, name, e);
    WindowSums(events, whole, left, right, success, failure);
    forall f: EventFilter ensures GroupSum(SuccessModel, sw, name, FilterEvents(events, f).successes) ==
        SumOf(success, FilterEvents(events, f).successes)
                                  && GroupSum(key, One, name, FilterEvents(events, f).failures) ==
                                      SumOf(failure, FilterEvents(events, f).failures) {
      GroupSumIsSum(SuccessModel, sw, name, success, FilterEvents(events, f).successes);
      GroupSumIsSum(key, One, name, failure, FilterEvents(events, f).failures);
    }
  }
}
