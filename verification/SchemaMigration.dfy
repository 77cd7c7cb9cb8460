/**
 Versioned payload migrations (app/schema_migration.py).  A migration step is a deterministic
 function of the payload it is given.  It may scribble on the object it is handed, and return
 that object, a new one, or one that existed before.
 */
module SchemaMigration {
  import opened Wrappers

  /** The schema_version field, None when it is missing or not an integer, and everything else. */
  datatype Payload = Payload(version: Option<int>, rest: string)

  /** A payload as an object that can be shared and written to. */
  class Document {
    var contents: Payload

    constructor (contents: Payload)
      ensures this.contents == contents
    {
      this.contents := contents;
    }

    method DeepCopy() returns (d: Document)
      ensures fresh(d) && d.contents == contents
    {
      d := new Document(contents);
    }
  }

  datatype StepOutcome =
    | Raised
    | NotAPayload
    | ReturnedNew(payload: Payload)
    | ReturnedArgument
    | ReturnedExisting(document: Document, payload: Payload)

  /** What a step returns, and what it leaves in its argument. */
  datatype Effect = Effect(outcome: StepOutcome, argument: Payload)

  /** The contents of the payload a step returns. */
  function PayloadOf(e: Effect): Option<Payload> {
    match e.outcome
    case ReturnedNew(p) => Some(p)
    case ReturnedArgument => Some(e.argument)
    case ReturnedExisting(_, p) => Some(p)
    case _ => None
  }

  datatype Migration = Callable(run: Payload -> Effect) | NotCallable

  function Run(m: Migration, p: Payload): Effect
    requires m.Callable?
  {
    m.run(p)
  }

  datatype Key = Pair(source: int, target: int) | NotAPair

  type Registry = map<Key, Migration>

  datatype MigrationError =
    | InvalidVersion | InvalidRegistry | MissingMigration | Downgrade | Unsupported | StepFailed

  predicate IsVersion(v: int) {
    v >= 1
  }

  function ExtractVersion(p: Payload): Result<int, MigrationError> {
    if p.version.Some? && IsVersion(p.version.value) then Ok(p.version.value) else Err(InvalidVersion)
  }

  predicate ValidRegistry(registry: Registry) {
    forall k | k in registry :: k.Pair? && IsVersion(k.source) && k.target == k.source + 1 && registry[k].Callable?
  }

  /** build_migration_path */
  method BuildMigrationPath(source: int, target: int) returns (r: Result<seq<Key>, MigrationError>)
    ensures r.Err? ==> r.error == if !IsVersion(source) || !IsVersion(target) then InvalidVersion else Downgrade
    ensures r.Ok? <==> 1 <= source <= target
    ensures r.Ok? ==> |r.value| == target - source && forall i | 0 <= i < |r.value| ::
            r.value[i] == Pair(source + i, source + i + 1)
  {
    if !IsVersion(source) || !IsVersion(target) { return Err(InvalidVersion); }
    if source > target { return Err(Downgrade); }
    if source == target { return Ok([]); }
    var path: seq<Key> := [];
    for version := source to target
      invariant |path| == version - source
      invariant forall i | 0 <= i < |path| :: path[i] == Pair(source + i, source + i + 1)
    {
      path := path + [Pair(version, version + 1)];
    }
    return Ok(path);
  }

  // ---------------------------------------------------------------- the meaning of a migration

  /** One step: it must return a payload of the next version. */
  function Step(p: Payload, version: int, registry: Registry): Result<Payload, MigrationError> {
    var key := Pair(version, version + 1);
    if key !in registry || registry[key].NotCallable? then Err(MissingMigration)
    else match PayloadOf(Run(registry[key], p))
      case Some(q) => if ExtractVersion(q) == Ok(version + 1) then Ok(q) else Err(StepFailed)
      case None => Err(StepFailed)
  }

  function RunSteps(p: Payload, version: int, target: int, registry: Registry): Result<Payload, MigrationError>
    decreases target - version
  {
    if version >= target then Ok(p)
    else match Step(p, version, registry)
      case Err(e) => Err(e)
      case Ok(q) => RunSteps(q, version + 1, target, registry)
  }

  /** migrate_schema_payload */
  function Migrate(p: Payload, target: int, registry: Registry, minimum: int): Result<Payload, MigrationError> {
    if !IsVersion(target) || !IsVersion(minimum) || target < minimum then Err(InvalidVersion)
    else if !ValidRegistry(registry) then Err(InvalidRegistry)
    else match ExtractVersion(p)
      case Err(e) => Err(e)
      case Ok(version) =>
        if version < minimum then Err(Unsupported)
        else if version > target then Err(Downgrade)
        else RunSteps(p, version, target, registry)
  }

  // ---------------------------------------------------------------- on the heap

  /** The existing objects that steps return are among `shared`, and hold what the steps say they return. */
  ghost predicate TellsContents(m: Migration, shared: set<Document>)
    reads shared
  {
    m.Callable? ==>
      forall p: Payload ::
        var outcome := Run(m, p).outcome;
        outcome.ReturnedExisting? ==> outcome.document in shared && outcome.document.contents == outcome.payload
  }

  ghost predicate AllTellContents(registry: Registry, shared: set<Document>)
    reads shared
  {
    forall k | k in registry :: TellsContents(registry[k], shared)
  }

  lemma EachTellsContents(registry: Registry, k: Key, shared: set<Document>)
    requires AllTellContents(registry, shared) && k in registry
    ensures TellsContents(registry[k], shared)
  {
    hide TellsContents;
  }

  /** The existing object that the last step returns, if it returns one; nobody copies it. */
  function LastExisting(p: Payload, version: int, target: int, registry: Registry): Option<Document>
    decreases target - version
  {
    if version >= target then None
    else match Step(p, version, registry)
      case Err(_) => None
      case Ok(q) =>
        if version + 1 < target then LastExisting(q, version + 1, target, registry)
        else
          var outcome := Run(registry[Pair(version, version + 1)], p).outcome;
          if outcome.ReturnedExisting? then Some(outcome.document) else None
  }

  /** _run_migration_step */
  method RunMigrationStep(migration: Migration, key: Key, d: Document, ghost shared: set<Document>)
    returns (r: Result<Document, MigrationError>)
    requires key.Pair? && migration.Callable? && TellsContents(migration, shared)
    ensures r.Ok? ==> PayloadOf(Run(migration, d.contents)) == Some(r.value.contents)
                      && ExtractVersion(r.value.contents) == Ok(key.target)
    ensures r.Ok? ==> var outcome := Run(migration, d.contents).outcome;
                      if outcome.ReturnedExisting? then r.value == outcome.document else fresh(r.value)
    ensures r.Err? ==> r.error == StepFailed
                       && (PayloadOf(Run(migration, d.contents)).None?
                           || ExtractVersion(PayloadOf(Run(migration, d.contents)).value) != Ok(key.target))
  {
    var argument := d.DeepCopy();
    var effect := Run(migration, argument.contents);
    argument.contents := effect.argument;
    var migrated: Document;
    match effect.outcome {
      case Raised => return Err(StepFailed);
      case NotAPayload => return Err(StepFailed);
      case ReturnedNew(payload) => migrated := new Document(payload);
      case ReturnedArgument => migrated := argument;
      case ReturnedExisting(document, _) => migrated := document;
    }
    if ExtractVersion(migrated.contents) != Ok(key.target) { return Err(StepFailed); }
    return Ok(migrated);
  }

  /** The object the step from one version hands out, if it is an existing one. */
  function HandedOut(p: Payload, version: int, registry: Registry): Option<Document> {
    var key := Pair(version, version + 1);
    if key in registry && registry[key].Callable? && Run(registry[key], p).outcome.ReturnedExisting? then
      Some(Run(registry[key], p).outcome.document)
    else None
  }

  lemma HandedOutIs(p: Payload, version: int, registry: Registry)
    requires Pair(version, version + 1) in registry && registry[Pair(version, version + 1)].Callable?
    ensures var outcome := Run(registry[Pair(version, version + 1)], p).outcome;
            HandedOut(p, version, registry) ==
            if outcome.ReturnedExisting? then Some(outcome.document) else None
  {
    hide Run;
  }

  lemma MigrateChecks(p: Payload, target: int, registry: Registry, minimum: int)
    ensures var r, version := Migrate(p, target, registry, minimum), ExtractVersion(p);
            && (!IsVersion(target) || !IsVersion(minimum) || target < minimum ==> r == Err(InvalidVersion))
            && (IsVersion(minimum) && minimum <= target ==>
                  if !ValidRegistry(registry) then r == Err(InvalidRegistry)
                  else if version.Err? then r == Err(version.error)
                  else
                    && version.value >= 1 && p.version == Some(version.value)
                    && if version.value < minimum then r == Err(Unsupported)
                       else if version.value > target then r == Err(Downgrade)
                       else r == RunSteps(p, version.value, target, registry))
  {
    hide RunSteps;
  }

  lemma EachIsUsable(registry: Registry, k: Key)
    requires ValidRegistry(registry) && k in registry
    ensures registry[k].Callable?
  {
  }

  /** A migration from `source` that has reached a version: the rest of the steps gives what all of them give. */
  predicate Underway(
    start: Payload, source: int, target: int, registry: Registry, p: Payload, version: int, existing: Option<Document>)
  {
    && ExtractVersion(p) == Ok(version) && source <= version <= target
    && RunSteps(p, version, target, registry) == RunSteps(start, source, target, registry)
    && LastExisting(start, source, target, registry)
       == if source < version == target then existing else LastExisting(p, version, target, registry)
  }

  lemma UnderwayStart(start: Payload, source: int, target: int, registry: Registry)
    requires ExtractVersion(start) == Ok(source) && source <= target
    ensures Underway(start, source, target, registry, start, source, None)
  {
  }

  lemma UnderwayNext(
    start: Payload, source: int, target: int, registry: Registry, p: Payload, version: int,
    existing: Option<Document>, q: Payload)
    requires Underway(start, source, target, registry, p, version, existing) && version < target
    requires var key := Pair(version, version + 1);
             && key in registry && registry[key].Callable? && PayloadOf(Run(registry[key], p)) == Some(q)
    requires ExtractVersion(q) == Ok(version + 1)
    ensures Underway(start, source, target, registry, q, version + 1, HandedOut(p, version, registry))
  {
  }

  lemma UnderwayStops(
    start: Payload, source: int, target: int, registry: Registry, p: Payload, version: int,
    existing: Option<Document>)
    requires Underway(start, source, target, registry, p, version, existing) && version < target
    ensures var key := Pair(version, version + 1);
            if key !in registry || registry[key].NotCallable? then
              RunSteps(start, source, target, registry) == Err(MissingMigration)
            else
              var returned := PayloadOf(Run(registry[key], p));
              (returned.None? || ExtractVersion(returned.value) != Ok(version + 1)) ==>
                RunSteps(start, source, target, registry) == Err(StepFailed)
  {
  }

  lemma UnderwayEnds(
    start: Payload, source: int, target: int, registry: Registry, p: Payload, existing: Option<Document>)
    requires Underway(start, source, target, registry, p, target, existing) && (source == target ==> existing == None)
    ensures RunSteps(start, source, target, registry) == Ok(p)
    ensures LastExisting(start, source, target, registry) == existing
    ensures ExtractVersion(p) == Ok(target)
  {
  }

  /**
   The result has the migrated contents.  It is a new object unless the last step returned an
   existing one, and then it is that object; in either case no existing object, the caller's
   payload among them, is written to.
   */
  method MigrateSchemaPayload(
    payload: Document, target: int, registry: Registry, minimum: int, ghost shared: set<Document>
  ) returns (r: Result<Document, MigrationError>)
    requires AllTellContents(registry, shared)
    ensures r.Ok? ==> Migrate(payload.contents, target, registry, minimum) == Ok(r.value.contents)
    ensures r.Ok? ==> ExtractVersion(payload.contents).Ok?
                      && match LastExisting(payload.contents, payload.contents.version.value, target, registry)
                         case Some(document) => r.value == document
                         case None => fresh(r.value)
    ensures r.Err? ==> Migrate(payload.contents, target, registry, minimum) == Err(r.error)
  {
    hide Run, HandedOut, RunSteps, LastExisting, Step, Migrate, PayloadOf, AllTellContents, TellsContents,
         ValidRegistry, ExtractVersion, Underway;
    MigrateChecks(payload.contents, target, registry, minimum);
    if !IsVersion(target) || !IsVersion(minimum) { return Err(InvalidVersion); }
    if target < minimum { return Err(InvalidVersion); }
    if !ValidRegistry(registry) { return Err(InvalidRegistry); }
    var version := ExtractVersion(payload.contents);
    if version.Err? { return Err(version.error); }
    var source := version.value;
    if source < minimum { return Err(Unsupported); }
    if source > target { return Err(Downgrade); }
    var current := payload.DeepCopy();
    ghost var start := current.contents;
    var path := BuildMigrationPath(source, target);
    UnderwayStart(start, source, target, registry);
    if path.value == [] {
      UnderwayEnds(start, source, target, registry, start, None);
      return Ok(current);
    }
    ghost var existing: Option<Document> := None;
    for i := 0 to |path.value|
      invariant AllTellContents(registry, shared)
      invariant Underway(start, source, target, registry, current.contents, source + i, existing)
      invariant match existing case Some(document) => current == document case None => fresh(current)
    {
      var key := path.value[i];
      ghost var p := current.contents;
      UnderwayStops(start, source, target, registry, p, source + i, existing);
      if key !in registry { return Err(MissingMigration); }
      EachIsUsable(registry, key);
      EachTellsContents(registry, key, shared);
      var stepped := RunMigrationStep(registry[key], key, current, shared);
      if stepped.Err? { return Err(stepped.error); }
      current := stepped.value;
      UnderwayNext(start, source, target, registry, p, source + i, existing, current.contents);
      existing := HandedOut(p, source + i, registry);
      HandedOutIs(p, source + i, registry);
    }
    UnderwayEnds(start, source, target, registry, current.contents, existing);
    if ExtractVersion(current.contents) != Ok(target) { return Err(StepFailed); }
    return Ok(current);
  }

  /**
   So the result need not be new: a step that always returns one and the same object makes every
   migration that ends with it return that object.
   */
  lemma {:induction false} ConstantStepIsReturned(
      p: Payload, version: int, registry: Registry, shared: Document, contents: Payload)
    requires ExtractVersion(contents) == Ok(version + 1)
    requires var key := Pair(version, version + 1);
             key in registry && registry[key].Callable?
                 && Run(registry[key], p).outcome == ReturnedExisting(shared, contents)
    ensures LastExisting(p, version, version + 1, registry) == Some(shared)
    ensures RunSteps(p, version, version + 1, registry) == Ok(contents)
  {
    assert Step(p, version, registry) == Ok(contents);
    assert RunSteps(contents, version + 1, version + 1, registry) == Ok(contents);
  }

  // ---------------------------------------------------------------- laws

  lemma {:induction false} StepsReachTarget(p: Payload, version: int, target: int, registry: Registry)
    requires ExtractVersion(p) == Ok(version) && version <= target
    ensures var r := RunSteps(p, version, target, registry); r.Ok? ==> ExtractVersion(r.value) == Ok(target)
    decreases target - version
  {
    if version < target && Step(p, version, registry).Ok? {
      StepsReachTarget(Step(p, version, registry).value, version + 1, target, registry);
    }
  }

  lemma {:induction false} StepsCompose(p: Payload, version: int, middle: int, target: int, registry: Registry)
    requires version <= middle <= target
    ensures RunSteps(p, version, target, registry) ==
            match RunSteps(p, version, middle, registry)
            case Ok(q) => RunSteps(q, middle, target, registry)
            case Err(e) => Err(e)
    decreases middle - version
  {
    if version < middle && Step(p, version, registry).Ok? {
      StepsCompose(Step(p, version, registry).value, version + 1, middle, target, registry);
    }
  }

  /** Migrate to `middle`, then migrate the result to `target`. */
  function MigrateVia(
      p: Payload, middle: int, target: int, registry: Registry, minimum: int
  ): Result<Payload, MigrationError> {
    match Migrate(p, middle, registry, minimum)
    case Ok(q) => Migrate(q, target, registry, minimum)
    case Err(e) => Err(e)
  }

  /**
   Migrating in two hops gives what one migration gives, result and error alike, exactly when
   the payload's version is not one between the two targets.
   */
  lemma {:induction false} MigrationComposes(p: Payload, middle: int, target: int, registry: Registry, minimum: int)
    requires 1 <= minimum <= middle <= target && ValidRegistry(registry)
    ensures MigrateVia(p, middle, target, registry, minimum) == Migrate(p, target, registry, minimum)
            <==> !(ExtractVersion(p).Ok? && middle < p.version.value <= target)
  {
    if ExtractVersion(p).Ok? {
      var version := p.version.value;
      if minimum <= version <= middle {
        StepsCompose(p, version, middle, target, registry);
        StepsReachTarget(p, version, middle, registry);
      } else if middle < version <= target {
        StepsNeverDowngrade(p, version, target, registry);
      }
    }
  }

  lemma {:induction false} StepsNeverDowngrade(p: Payload, version: int, target: int, registry: Registry)
    ensures RunSteps(p, version, target, registry) != Err(Downgrade)
    decreases target - version
  {
    if version < target && Step(p, version, registry).Ok? {
      StepsNeverDowngrade(Step(p, version, registry).value, version + 1, target, registry);
    }
  }

  /** The steps up to version k have run and left q, and there is no step from there. */
  predicate NoStepAt(p: Payload, version: int, k: int, registry: Registry) {
    RunSteps(p, version, k, registry).Ok? && Pair(k, k + 1) !in registry
  }

  /** There is one, and what it returns is no payload of version k + 1. */
  predicate WrongStepAt(p: Payload, version: int, k: int, registry: Registry) {
    && RunSteps(p, version, k, registry).Ok?
    && Pair(k, k + 1) in registry && registry[Pair(k, k + 1)].Callable?
    && match PayloadOf(Run(registry[Pair(k, k + 1)], RunSteps(p, version, k, registry).value))
       case None => true
       case Some(q) => q.version != Some(k + 1)
  }

  lemma {:induction false} LastStepRefuses(p: Payload, version: int, k: int, registry: Registry)
    requires version <= k && ValidRegistry(registry)
    ensures var before, r := RunSteps(p, version, k, registry), RunSteps(p, version, k + 1, registry);
            && (before.Err? ==>
                  r == before && !NoStepAt(p, version, k, registry) && !WrongStepAt(p, version, k, registry))
            && (before.Ok? ==>
                  && (r == Err(MissingMigration) <==> NoStepAt(p, version, k, registry))
                  && (r == Err(StepFailed) <==> WrongStepAt(p, version, k, registry))
                  && (r.Err? ==> r.error in {MissingMigration, StepFailed}))
  {
    StepsCompose(p, version, k, k + 1, registry);
    var before := RunSteps(p, version, k, registry);
    if before.Ok? {
      var step := Step(before.value, k, registry);
      if step.Ok? { assert RunSteps(step.value, k + 1, k + 1, registry) == step; }
    }
  }

  /** The steps run until the first that is missing or does not do its work, and that is what they fail with. */
  lemma {:induction false} StepsRefuse(p: Payload, version: int, target: int, registry: Registry)
    requires ValidRegistry(registry)
    ensures RunSteps(p, version, target, registry) == Err(MissingMigration) <==>
            exists k | version <= k < target :: NoStepAt(p, version, k, registry)
    ensures RunSteps(p, version, target, registry) == Err(StepFailed) <==>
            exists k | version <= k < target :: WrongStepAt(p, version, k, registry)
    ensures RunSteps(p, version, target, registry).Err? ==>
              RunSteps(p, version, target, registry).error in {MissingMigration, StepFailed}
    decreases target - version
  {
    hide NoStepAt, WrongStepAt;
    if version < target {
      hide RunSteps, ValidRegistry;
      StepsRefuse(p, version, target - 1, registry);
      LastStepRefuses(p, version, target - 1, registry);
    }
  }

  /** A key that is no pair of a version and the next, or a migration that is no function. */
  predicate Unusable(registry: Registry, k: Key)
    requires k in registry
  {
    k == NotAPair || k.source < 1 || k.target != k.source + 1 || registry[k] == NotCallable
  }

  /** What a migration refuses, and with which error, in the order of its checks. */
  lemma {:induction false} MigrationRefusals(p: Payload, target: int, registry: Registry, minimum: int)
    ensures var r := Migrate(p, target, registry, minimum);
            var asked := 1 <= minimum <= target;
            var usable := forall k | k in registry :: !Unusable(registry, k);
            var versioned := p.version.Some? && p.version.value >= 1;
            && (r == Err(InvalidVersion) <==> !asked || (usable && !versioned))
            && (r == Err(InvalidRegistry) <==> asked && !usable)
            && (r == Err(Unsupported) <==> asked && usable && versioned && p.version.value < minimum)
            && (r == Err(Downgrade) <==> asked && usable && versioned && target < p.version.value)
            && (r == Err(MissingMigration) <==>
                  asked && usable && versioned && minimum <= p.version.value
                  && exists k | p.version.value <= k < target :: NoStepAt(p, p.version.value, k, registry))
            && (r == Err(StepFailed) <==>
                  asked && usable && versioned && minimum <= p.version.value
                  && exists k | p.version.value <= k < target :: WrongStepAt(p, p.version.value, k, registry))
  {
    hide RunSteps, NoStepAt, WrongStepAt;
    assert (forall k | k in registry :: !Unusable(registry, k)) <==> ValidRegistry(registry);
    if ValidRegistry(registry) && ExtractVersion(p).Ok? { StepsRefuse(p, p.version.value, target, registry); }
  }

  /** A migration that succeeds always ends at the target version; the last check of the source cannot fail. */
  lemma {:induction false} MigrationReachesTarget(p: Payload, target: int, registry: Registry, minimum: int)
    ensures var r := Migrate(p, target, registry, minimum); r.Ok? ==> ExtractVersion(r.value) == Ok(target)
  {
    if ExtractVersion(p).Ok? && p.version.value <= target { StepsReachTarget(p, p.version.value, target, registry); }
  }
}
