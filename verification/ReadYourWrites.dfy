/**
 * What is written is what is read: after a write and any run of calls and evaluations
 * that leaves the record alone, the record has the fields of the last request.
 */
module ReadYourWrites {
  import opened Options
  import opened Records
  import opened Keys
  import opened KeyConflicts
  import opened F = FlatStore
  import opened T = TenantStore
  import opened Refinement
  import opened Rules
  import opened Evaluation
  import opened Stickiness

  // ---- Which keys a call writes ----

  /** The keys of the store that a call may write, letter by letter. */
  predicate WritesKey(op: Op, key: string) {
    match op
    case CreateFlag(t, f) => key == t + ":flags:" + f.key || key == t + ":flag_keys"
    case UpdateFlag(t, f) => key == t + ":flags:" + f.key
    case DeleteFlag(t, k) => key == t + ":flags:" + k || key == t + ":flag_keys"
    case SaveAssignment(t, a) => key == t + ":assignments:" + a.subjectId + ":" + a.flagKey
    case CreateExperiment(t, e) => key == t + ":experiments:" + e.key || key == t + ":experiment_keys"
    case UpdateExperiment(t, e) => key == t + ":experiments:" + e.key
    case CreateAPIKey(t, k) =>
      key == t + ":apikeys:" + k.id || key == t + ":apikey_ids" || key == "apikey_by_hash:" + k.keyHash
    case RevokeAPIKey(t, id) => key == t + ":apikeys:" + id
    case _ => false
  }

  /** Whatever the ids, a call changes nothing under any other key. */
  lemma CallLeaves(db: Db, op: Op, now: int, key: string)
    requires !WritesKey(op, key)
    ensures Lookup(Step(db, op, now).0, key) == Lookup(db, key)
  {
    forall q: Path | Touches(op, q)
      ensures Render(q) != key
    {
      KeyText(q);
      hide Render;
    }
    hide Render, Step, Touches, WritesKey;
    StepLeaves(db, op, now, key);
  }

  /** The evaluation computes an answer and saves it under the key. */
  predicate SavesUnder(cfg: Config, db: Db, k: string, ctx: EvaluationContext, w: World, key: string) {
    && FindsPersistent(cfg, db, k, ctx, w) && Evaluate(cfg, db, k, ctx, w).1.reason != Persisted
    && key == ctx.tenantId + ":assignments:" + ctx.subjectId + ":" + FoundFlag(cfg, db, k, ctx, w).key
  }

  predicate EventWrites(cfg: Config, db: Db, e: Event, key: string) {
    match e
    case Rpc(call) => WritesKey(call.op, key)
    case Evaluated(k, ctx, w) => SavesUnder(cfg, db, k, ctx, w, key)
  }

  lemma EvaluationLeaves(cfg: Config, db: Db, k: string, ctx: EvaluationContext, w: World, key: string)
    requires !SavesUnder(cfg, db, k, ctx, w, key)
    ensures Lookup(Evaluate(cfg, db, k, ctx, w).0, key) == Lookup(db, key)
  {
    if FindsPersistent(cfg, db, k, ctx, w) {
      var flag := FoundFlag(cfg, db, k, ctx, w);
      PersistentEvaluation(cfg, db, k, ctx, w);
      AnswersOwnKey(cfg.lib, flag, ctx, w.draws);
      KeyText(AssignmentPath(ctx.tenantId, ctx.subjectId, flag.key));
      hide Render, DoGetAssignment, EvaluateRules, Evaluate, FindsPersistent, FoundFlag;
    } else {
      NothingSaved(cfg, db, k, ctx, w);
    }
  }

  lemma EventLeaves(cfg: Config, db: Db, e: Event, key: string)
    requires !EventWrites(cfg, db, e, key)
    ensures Lookup(After(cfg, db, e), key) == Lookup(db, key)
  {
    hide Step, Evaluate, WritesKey, SavesUnder;
    match e
    case Rpc(call) => CallLeaves(db, call.op, call.now, key);
    case Evaluated(k, ctx, w) => EvaluationLeaves(cfg, db, k, ctx, w, key);
  }

  /** No event of the run writes under the key. */
  ghost predicate NoneWrites(cfg: Config, db: Db, events: seq<Event>, key: string)
    decreases |events|
  {
    events != [] ==>
      && !EventWrites(cfg, db, events[0], key)
      && NoneWrites(cfg, After(cfg, db, events[0]), events[1..], key)
  }

  lemma {:induction false} RunLeaves(cfg: Config, db: Db, events: seq<Event>, key: string)
    requires NoneWrites(cfg, db, events, key)
    ensures Lookup(AfterAll(cfg, db, events), key) == Lookup(db, key)
    decreases |events|
  {
    hide EventWrites, After;
    if events != [] {
      EventLeaves(cfg, db, events[0], key);
      RunLeaves(cfg, After(cfg, db, events[0]), events[1..], key);
    }
  }

  /** The event replaces the record at the path by one of the same kind and key. */
  predicate Rewrites(e: Event, p: Path) {
    && e.Rpc?
    && match p
       case FlagPath(t, k) => e.call.op.UpdateFlag? && e.call.op.tenant == t && e.call.op.flag.key == k
       case ExperimentPath(t, k) =>
         e.call.op.UpdateExperiment? && e.call.op.tenant == t && e.call.op.experiment.key == k
       case ApiKeyPath(t, id) => e.call.op == RevokeAPIKey(t, id)
       case _ => false
  }

  /** Of the events of the run only those write at the path that replace the record. */
  ghost predicate OnlyRewritten(cfg: Config, db: Db, events: seq<Event>, p: Path)
    decreases |events|
  {
    events != [] ==>
      && (EventWrites(cfg, db, events[0], Render(p)) ==> Rewrites(events[0], p))
      && OnlyRewritten(cfg, After(cfg, db, events[0]), events[1..], p)
  }

  /** Something that is no set is stored under the key, and has not expired. */
  predicate NotASet(db: Db, now: int, key: string) {
    key in db && db[key].Data? && (db[key].deadline.None? || now <= db[key].deadline.value)
  }

  // ---- Times ----

  /** The stored time, in seconds, is that of the clock, in milliseconds. */
  predicate InSecond(stored: int, clock: int) {
    1000 * stored <= clock < 1000 * (stored + 1)
  }

  // ---- Flags ----

  /** The nine fields that a request to write a flag decides. */
  predicate SameFlag(f: FlagDefinition, g: FlagDefinition) {
    && f.key == g.key && f.flagType == g.flagType && f.semantics == g.semantics && f.enabled == g.enabled
    && f.description == g.description && f.rules == g.rules && f.defaultResult == g.defaultResult
    && f.createdBy == g.createdBy && f.updatedBy == g.updatedBy
  }

  predicate IsFlag(r: Response, g: FlagDefinition, created: int, updated: int) {
    && r.FlagIs? && r.flag.Some? && SameFlag(r.flag.value, g)
    && InSecond(r.flag.value.createdAt, created) && InSecond(r.flag.value.updatedAt, updated)
  }

  predicate FlagStored(db: Db, t: string, g: FlagDefinition, created: int, updated: int) {
    var entry: Option<Entry> := Lookup(db, t + ":flags:" + g.key);
    match entry
    case Some(Data(FlagDoc(f), None)) =>
      SameFlag(f, g) && InSecond(f.createdAt, created) && InSecond(f.updatedAt, updated)
    case _ => false
  }

  lemma StoredFlagIsRead(db: Db, t: string, g: FlagDefinition, created: int, updated: int, now: int)
    requires FlagStored(db, t, g, created, updated)
    ensures IsFlag(Step(db, GetFlag(t, g.key), now).1, g, created, updated)
  {
    KeyText(FlagPath(t, g.key));
    hide Render;
  }

  lemma FlagOffIndex(t: string, k: string)
    ensures Render(FlagPath(t, k)) != Render(FlagKeys(t))
  {
    hide Render;
    if Render(FlagPath(t, k)) == Render(FlagKeys(t)) {
      FamiliesApart(FlagPath(t, k), FlagKeys(t));
    }
  }

  lemma CreateStores(db: Db, t: string, f: FlagDefinition, created: int)
    ensures var (db', r) := Step(db, CreateFlag(t, f), created);
            && FlagStored(db', t, f, created, created)
            && if NotASet(db, created, t + ":flag_keys") then r == Failed(WrongType) else IsFlag(r, f, created, created)
  {
    KeyText(FlagPath(t, f.key));
    KeyText(FlagKeys(t));
    FlagOffIndex(t, f.key);
    hide Render;
  }

  /** A created flag is read with all that the request said, stamped with the time of its creation. */
  lemma CreatedFlagIsRead(
    cfg: Config, db: Db, t: string, f: FlagDefinition, created: int, later: seq<Event>, now: int)
    requires NoneWrites(cfg, Step(db, CreateFlag(t, f), created).0, later, t + ":flags:" + f.key)
    ensures var (db1, r) := Step(db, CreateFlag(t, f), created);
            && IsFlag(Step(AfterAll(cfg, db1, later), GetFlag(t, f.key), now).1, f, created, created)
            && if NotASet(db, created, t + ":flag_keys") then r == Failed(WrongType) else IsFlag(r, f, created, created)
  {
    hide Step, IsFlag, NoneWrites;
    CreateStores(db, t, f, created);
    var db1 := Step(db, CreateFlag(t, f), created).0;
    RunLeaves(cfg, db1, later, t + ":flags:" + f.key);
    StoredFlagIsRead(AfterAll(cfg, db1, later), t, f, created, created, now);
  }

  /**
   * An update fails and writes nothing if there is no such flag or it cannot be read;
   * otherwise it keeps the time of creation of the flag and takes all else from the request.
   */
  lemma UpdateReplaces(db: Db, t: string, g: FlagDefinition, updated: int)
    ensures var (db', r) := Step(db, UpdateFlag(t, g), updated);
            match Step(db, GetFlag(t, g.key), updated).1
            case Failed(e) => db' == db && r == Failed(e)
            case FlagIs(None) => db' == db && r == Failed(F.NotFound)
            case FlagIs(Some(was)) =>
              && Step(db', GetFlag(t, g.key), updated).1 == r && r.FlagIs? && r.flag.Some?
              && SameFlag(r.flag.value, g) && r.flag.value.createdAt == was.createdAt
              && InSecond(r.flag.value.updatedAt, updated)
            case _ => false
  {
    hide Render;
  }

  /** A successful update leaves the request in the store. */
  lemma UpdateLeavesStored(db: Db, t: string, g: FlagDefinition, updated: int) returns (created: int)
    requires Step(db, UpdateFlag(t, g), updated).1.FlagIs?
    ensures FlagStored(Step(db, UpdateFlag(t, g), updated).0, t, g, created, updated)
  {
    var r := Step(db, UpdateFlag(t, g), updated).1;
    created := 1000 * r.flag.value.createdAt;
    KeyText(FlagPath(t, g.key));
    hide Render;
  }

  lemma UpdateStores(db: Db, t: string, f: FlagDefinition, g: FlagDefinition, c: int, u: int, updated: int)
    requires FlagStored(db, t, f, c, u) && f.key == g.key
    ensures var (db', r) := Step(db, UpdateFlag(t, g), updated);
            FlagStored(db', t, g, c, updated) && IsFlag(r, g, c, updated)
  {
    KeyText(FlagPath(t, g.key));
    hide Render;
  }

  /** Some flag is stored under the key, created at that time. */
  ghost predicate CreatedAt(db: Db, t: string, k: string, created: int) {
    exists f: FlagDefinition, u: int :: f.key == k && FlagStored(db, t, f, created, u)
  }

  lemma {:induction false} UpdatesKeepCreation(
    cfg: Config, db: Db, events: seq<Event>, t: string, k: string, created: int)
    requires CreatedAt(db, t, k, created) && OnlyRewritten(cfg, db, events, FlagPath(t, k))
    ensures CreatedAt(AfterAll(cfg, db, events), t, k, created)
    decreases |events|
  {
    if events != [] {
      var e := events[0];
      var f: FlagDefinition, u: int :| f.key == k && FlagStored(db, t, f, created, u);
      KeyText(FlagPath(t, k));
      hide EventWrites, Step, IsFlag, Render;
      if Rewrites(e, FlagPath(t, k)) {
        UpdateStores(db, t, f, e.call.op.flag, created, u, e.call.now);
        assert FlagStored(After(cfg, db, e), t, e.call.op.flag, created, e.call.now);
      } else {
        EventLeaves(cfg, db, e, t + ":flags:" + k);
        hide After;
        assert FlagStored(After(cfg, db, e), t, f, created, u);
      }
      UpdatesKeepCreation(cfg, After(cfg, db, e), events[1..], t, k, created);
    }
  }

  /**
   * After its creation, any updates, a last update, and a run that leaves it alone, a flag
   * is read with all that the last update said, the time of the creation and that of the update.
   */
  lemma UpdatedFlagIsRead(
    cfg: Config, db: Db, t: string, f: FlagDefinition, created: int, between: seq<Event>,
    g: FlagDefinition, updated: int, later: seq<Event>, now: int)
    requires f.key == g.key && OnlyRewritten(cfg, Step(db, CreateFlag(t, f), created).0, between, FlagPath(t, f.key))
    requires var db1 := AfterAll(cfg, Step(db, CreateFlag(t, f), created).0, between);
             NoneWrites(cfg, Step(db1, UpdateFlag(t, g), updated).0, later, t + ":flags:" + f.key)
    ensures var db1 := AfterAll(cfg, Step(db, CreateFlag(t, f), created).0, between);
            var (db2, r) := Step(db1, UpdateFlag(t, g), updated);
            && IsFlag(Step(AfterAll(cfg, db2, later), GetFlag(t, g.key), now).1, g, created, updated)
            && IsFlag(r, g, created, updated)
  {
    hide Step, IsFlag, NoneWrites, OnlyRewritten;
    CreateStores(db, t, f, created);
    var db0 := Step(db, CreateFlag(t, f), created).0;
    assert CreatedAt(db0, t, f.key, created);
    UpdatesKeepCreation(cfg, db0, between, t, f.key, created);
    var db1 := AfterAll(cfg, db0, between);
    var h: FlagDefinition, u: int :| h.key == f.key && FlagStored(db1, t, h, created, u);
    UpdateStores(db1, t, h, g, created, u, updated);
    var db2 := Step(db1, UpdateFlag(t, g), updated).0;
    RunLeaves(cfg, db2, later, t + ":flags:" + f.key);
    StoredFlagIsRead(AfterAll(cfg, db2, later), t, g, created, updated, now);
  }

  lemma DeleteRemoves(db: Db, t: string, k: string, deleted: int)
    ensures var (db', r) := Step(db, DeleteFlag(t, k), deleted);
            && t + ":flags:" + k !in db'
            && r == if NotASet(db, deleted, t + ":flag_keys") then Failed(WrongType) else Done
  {
    FlagOffIndex(t, k);
    KeyText(FlagPath(t, k));
    KeyText(FlagKeys(t));
    hide Render;
  }

  lemma NoFlagIsRead(db: Db, t: string, k: string, now: int)
    requires t + ":flags:" + k !in db
    ensures Step(db, GetFlag(t, k), now).1 == FlagIs(None)
  {
    KeyText(FlagPath(t, k));
    hide Render;
  }

  /** A deleted flag is gone until its record is written again. */
  lemma DeletedFlagIsGone(cfg: Config, db: Db, t: string, k: string, deleted: int, later: seq<Event>, now: int)
    requires NoneWrites(cfg, Step(db, DeleteFlag(t, k), deleted).0, later, t + ":flags:" + k)
    ensures var (db1, r) := Step(db, DeleteFlag(t, k), deleted);
            && Step(AfterAll(cfg, db1, later), GetFlag(t, k), now).1 == FlagIs(None)
            && r == if NotASet(db, deleted, t + ":flag_keys") then Failed(WrongType) else Done
  {
    hide Step, NoneWrites, NotASet;
    DeleteRemoves(db, t, k, deleted);
    var db1 := Step(db, DeleteFlag(t, k), deleted).0;
    RunLeaves(cfg, db1, later, t + ":flags:" + k);
    NoFlagIsRead(AfterAll(cfg, db1, later), t, k, now);
  }

  // ---- Experiments ----

  /** The six fields that a request to write an experiment decides. */
  predicate SameExperiment(e: Experiment, g: Experiment) {
    && e.key == g.key && e.name == g.name && e.status == g.status
    && e.stickyAssignment == g.stickyAssignment && e.variants == g.variants && e.allocation == g.allocation
  }

  predicate IsExperiment(r: Response, g: Experiment, created: int, updated: int) {
    && r.ExperimentIs? && r.experiment.Some? && SameExperiment(r.experiment.value, g)
    && InSecond(r.experiment.value.createdAt, created) && InSecond(r.experiment.value.updatedAt, updated)
  }

  predicate ExperimentStored(db: Db, t: string, g: Experiment, created: int, updated: int) {
    var entry: Option<Entry> := Lookup(db, t + ":experiments:" + g.key);
    match entry
    case Some(Data(ExperimentDoc(e), None)) =>
      SameExperiment(e, g) && InSecond(e.createdAt, created) && InSecond(e.updatedAt, updated)
    case _ => false
  }

  lemma StoredExperimentIsRead(db: Db, t: string, g: Experiment, created: int, updated: int, now: int)
    requires ExperimentStored(db, t, g, created, updated)
    ensures IsExperiment(Step(db, GetExperiment(t, g.key), now).1, g, created, updated)
  {
    KeyText(ExperimentPath(t, g.key));
    hide Render;
  }

  lemma CreateExperimentStores(db: Db, t: string, e: Experiment, created: int)
    ensures var (db', r) := Step(db, CreateExperiment(t, e), created);
            && ExperimentStored(db', t, e, created, created)
            && if NotASet(db, created, t + ":experiment_keys") then r == Failed(WrongType)
               else IsExperiment(r, e, created, created)
  {
    KeyText(ExperimentPath(t, e.key));
    KeyText(ExperimentKeys(t));
    hide Render;
    if Render(ExperimentPath(t, e.key)) == Render(ExperimentKeys(t)) {
      FamiliesApart(ExperimentPath(t, e.key), ExperimentKeys(t));
    }
  }

  /** A created experiment is read with all that the request said, its status included. */
  lemma CreatedExperimentIsRead(
    cfg: Config, db: Db, t: string, e: Experiment, created: int, later: seq<Event>, now: int)
    requires NoneWrites(cfg, Step(db, CreateExperiment(t, e), created).0, later, t + ":experiments:" + e.key)
    ensures var (db1, r) := Step(db, CreateExperiment(t, e), created);
            && IsExperiment(Step(AfterAll(cfg, db1, later), GetExperiment(t, e.key), now).1, e, created, created)
            && if NotASet(db, created, t + ":experiment_keys") then r == Failed(WrongType)
               else IsExperiment(r, e, created, created)
  {
    hide Step, IsExperiment, NoneWrites;
    CreateExperimentStores(db, t, e, created);
    var db1 := Step(db, CreateExperiment(t, e), created).0;
    RunLeaves(cfg, db1, later, t + ":experiments:" + e.key);
    StoredExperimentIsRead(AfterAll(cfg, db1, later), t, e, created, created, now);
  }

  /** An update of an experiment fails without a write, or replaces all but the time of creation. */
  lemma ExperimentUpdateReplaces(db: Db, t: string, g: Experiment, updated: int)
    ensures var (db', r) := Step(db, UpdateExperiment(t, g), updated);
            match Step(db, GetExperiment(t, g.key), updated).1
            case Failed(e) => db' == db && r == Failed(e)
            case ExperimentIs(None) => db' == db && r == Failed(F.NotFound)
            case ExperimentIs(Some(was)) =>
              && Step(db', GetExperiment(t, g.key), updated).1 == r && r.ExperimentIs? && r.experiment.Some?
              && SameExperiment(r.experiment.value, g) && r.experiment.value.createdAt == was.createdAt
              && InSecond(r.experiment.value.updatedAt, updated)
            case _ => false
  {
    hide Render;
  }

  lemma UpdateExperimentStores(db: Db, t: string, e: Experiment, g: Experiment, c: int, u: int, updated: int)
    requires ExperimentStored(db, t, e, c, u) && e.key == g.key
    ensures var (db', r) := Step(db, UpdateExperiment(t, g), updated);
            ExperimentStored(db', t, g, c, updated) && IsExperiment(r, g, c, updated)
  {
    KeyText(ExperimentPath(t, g.key));
    hide Render;
  }

  /** Some experiment is stored under the key, created at that time. */
  ghost predicate ExperimentCreatedAt(db: Db, t: string, k: string, created: int) {
    exists e: Experiment, u: int :: e.key == k && ExperimentStored(db, t, e, created, u)
  }

  lemma {:induction false} UpdatesKeepExperimentCreation(
    cfg: Config, db: Db, events: seq<Event>, t: string, k: string, created: int)
    requires ExperimentCreatedAt(db, t, k, created) && OnlyRewritten(cfg, db, events, ExperimentPath(t, k))
    ensures ExperimentCreatedAt(AfterAll(cfg, db, events), t, k, created)
    decreases |events|
  {
    if events != [] {
      var e := events[0];
      var x: Experiment, u: int :| x.key == k && ExperimentStored(db, t, x, created, u);
      KeyText(ExperimentPath(t, k));
      hide EventWrites, Step, IsExperiment, Render;
      if Rewrites(e, ExperimentPath(t, k)) {
        UpdateExperimentStores(db, t, x, e.call.op.experiment, created, u, e.call.now);
        assert ExperimentStored(After(cfg, db, e), t, e.call.op.experiment, created, e.call.now);
      } else {
        EventLeaves(cfg, db, e, t + ":experiments:" + k);
        hide After;
        assert ExperimentStored(After(cfg, db, e), t, x, created, u);
      }
      UpdatesKeepExperimentCreation(cfg, After(cfg, db, e), events[1..], t, k, created);
    }
  }

  /** After any updates an experiment is read as the last update said, with the time of its creation. */
  lemma UpdatedExperimentIsRead(
    cfg: Config, db: Db, t: string, e: Experiment, created: int, between: seq<Event>,
    g: Experiment, updated: int, later: seq<Event>, now: int)
    requires e.key == g.key
    requires OnlyRewritten(cfg, Step(db, CreateExperiment(t, e), created).0, between, ExperimentPath(t, e.key))
    requires var db1 := AfterAll(cfg, Step(db, CreateExperiment(t, e), created).0, between);
             NoneWrites(cfg, Step(db1, UpdateExperiment(t, g), updated).0, later, t + ":experiments:" + e.key)
    ensures var db1 := AfterAll(cfg, Step(db, CreateExperiment(t, e), created).0, between);
            var (db2, r) := Step(db1, UpdateExperiment(t, g), updated);
            && IsExperiment(Step(AfterAll(cfg, db2, later), GetExperiment(t, g.key), now).1, g, created, updated)
            && IsExperiment(r, g, created, updated)
  {
    hide Step, IsExperiment, NoneWrites, OnlyRewritten;
    CreateExperimentStores(db, t, e, created);
    var db0 := Step(db, CreateExperiment(t, e), created).0;
    assert ExperimentCreatedAt(db0, t, e.key, created);
    UpdatesKeepExperimentCreation(cfg, db0, between, t, e.key, created);
    var db1 := AfterAll(cfg, db0, between);
    var x: Experiment, u: int :| x.key == e.key && ExperimentStored(db1, t, x, created, u);
    UpdateExperimentStores(db1, t, x, g, created, u, updated);
    var db2 := Step(db1, UpdateExperiment(t, g), updated).0;
    RunLeaves(cfg, db2, later, t + ":experiments:" + e.key);
    StoredExperimentIsRead(AfterAll(cfg, db2, later), t, g, created, updated, now);
  }

  // ---- Assignments ----

  /** The assignment as it was saved; one without a time got that of the clock. */
  predicate SameAssignment(a: Assignment, b: Assignment, saved: int) {
    && a.subjectId == b.subjectId && a.flagKey == b.flagKey && a.enabled == b.enabled && a.variant == b.variant
    && a.expiresAt == b.expiresAt
    && if b.assignedAt > 0 then a.assignedAt == b.assignedAt else InSecond(a.assignedAt, saved)
  }

  /** Redis drops it at its expiry time, or a millisecond after the save if that has passed; else never. */
  predicate AssignmentStored(db: Db, t: string, a: Assignment, saved: int) {
    var entry: Option<Entry> := Lookup(db, t + ":assignments:" + a.subjectId + ":" + a.flagKey);
    match entry
    case Some(Data(AssignmentDoc(b), deadline)) =>
      && SameAssignment(b, a, saved)
      && deadline == (
           if a.expiresAt <= 0 then None
           else if 1000 * a.expiresAt > saved then Some(1000 * a.expiresAt)
           else Some(saved + 1))
    case _ => false
  }

  /** The assignment, up to and including the millisecond in which it expires, and then nothing. */
  predicate AnswersWith(r: Response, a: Assignment, saved: int, now: int) {
    match r
    case AssignmentIs(Some(b)) => (a.expiresAt > 0 ==> now <= 1000 * a.expiresAt) && SameAssignment(b, a, saved)
    case AssignmentIs(None) => a.expiresAt > 0 && now > 1000 * a.expiresAt
    case _ => false
  }

  lemma SaveStores(db: Db, t: string, a: Assignment, saved: int)
    ensures AssignmentStored(Step(db, SaveAssignment(t, a), saved).0, t, a, saved)
    ensures Step(db, SaveAssignment(t, a), saved).1 == Done
  {
    KeyText(AssignmentPath(t, a.subjectId, a.flagKey));
    hide Render;
  }

  lemma StoredAssignmentIsRead(db: Db, t: string, a: Assignment, saved: int, now: int)
    requires AssignmentStored(db, t, a, saved)
    ensures AnswersWith(Step(db, GetAssignment(t, a.subjectId, a.flagKey), now).1, a, saved, now)
  {
    KeyText(AssignmentPath(t, a.subjectId, a.flagKey));
    hide Render;
  }

  /** A saved assignment is read as it was saved up to its expiry time, and from then on not at all. */
  lemma SavedAssignmentIsRead(
    cfg: Config, db: Db, t: string, a: Assignment, saved: int, later: seq<Event>, now: int)
    requires NoneWrites(
               cfg, Step(db, SaveAssignment(t, a), saved).0, later,
               t + ":assignments:" + a.subjectId + ":" + a.flagKey)
    ensures var db1 := Step(db, SaveAssignment(t, a), saved).0;
            AnswersWith(
              Step(AfterAll(cfg, db1, later), GetAssignment(t, a.subjectId, a.flagKey), now).1, a, saved, now)
  {
    hide Step, AnswersWith, SameAssignment, NoneWrites;
    SaveStores(db, t, a, saved);
    var db1 := Step(db, SaveAssignment(t, a), saved).0;
    RunLeaves(cfg, db1, later, t + ":assignments:" + a.subjectId + ":" + a.flagKey);
    StoredAssignmentIsRead(AfterAll(cfg, db1, later), t, a, saved, now);
  }
}
