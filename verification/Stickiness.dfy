/** A saved assignment decides every later evaluation that reads it, whatever the ids look like. */
module Stickiness {
  import opened Options
  import opened Records
  import opened Keys
  import opened KeyConflicts
  import opened OwnRecords
  import opened SubjectKeys
  import opened F = FlatStore
  import opened T = TenantStore
  import opened Rules
  import opened Evaluation

  // ---- One evaluation ----

  /** The evaluation finds the flag enabled and persistent. */
  predicate FindsPersistent(cfg: Config, db: Db, k: string, ctx: EvaluationContext, w: World) {
    var got := DoGetFlag(db, w.now, ctx.tenantId, k);
    && cfg.persistent && w.flagOk && got.FlagIs? && got.flag.Some?
    && got.flag.value.enabled && got.flag.value.semantics == SEMANTICS_PERSISTENT
  }

  function FoundFlag(cfg: Config, db: Db, k: string, ctx: EvaluationContext, w: World): FlagDefinition
    requires FindsPersistent(cfg, db, k, ctx, w)
  {
    DoGetFlag(db, w.now, ctx.tenantId, k).flag.value
  }

  /** Where the evaluation reads and saves: it goes by the key that the flag itself has. */
  function UsedKey(cfg: Config, db: Db, k: string, ctx: EvaluationContext, w: World): string
    requires FindsPersistent(cfg, db, k, ctx, w)
  {
    AssignmentKey(ctx.tenantId, ctx.subjectId, FoundFlag(cfg, db, k, ctx, w).key)
  }

  function OutcomeOf(r: EvaluationResult): EvalResult {
    EvalResult(r.enabled, r.variant)
  }

  /** What the rules of the stored flag say now. */
  function RulesSay(cfg: Config, db: Db, k: string, ctx: EvaluationContext, w: World): EvalResult
    requires FindsPersistent(cfg, db, k, ctx, w)
  {
    OutcomeOf(EvaluateRules(cfg.lib, FoundFlag(cfg, db, k, ctx, w), ctx, w.draws))
  }

  /** An evaluation of anything but a persistent flag leaves the store alone. */
  lemma NothingSaved(cfg: Config, db: Db, k: string, ctx: EvaluationContext, w: World)
    requires !FindsPersistent(cfg, db, k, ctx, w)
    ensures Evaluate(cfg, db, k, ctx, w).0 == db
  {
    hide DoGetFlag, EvaluateRules;
  }

  /** Any other one reads and saves under the key it uses. */
  lemma PersistentEvaluation(cfg: Config, db: Db, k: string, ctx: EvaluationContext, w: World)
    requires FindsPersistent(cfg, db, k, ctx, w)
    ensures Evaluate(cfg, db, k, ctx, w) == EvaluatePersistent(cfg, db, FoundFlag(cfg, db, k, ctx, w), ctx, w)
  {
    hide DoGetFlag, EvaluatePersistent;
  }

  // ---- Assignments without expiry ----

  /** The store holds this answer under the key, and will hold it indefinitely. */
  predicate Pinned(db: Db, key: string, outcome: EvalResult) {
    var entry: Option<Entry> := Lookup(db, key);
    match entry
    case Some(Data(AssignmentDoc(a), None)) => a.expiresAt <= 0 && EvalResult(a.enabled, a.variant) == outcome
    case _ => false
  }

  lemma PinnedIsRead(db: Db, t: string, s: string, f: string, outcome: EvalResult, now: int)
    requires Pinned(db, AssignmentKey(t, s, f), outcome)
    ensures var r := DoGetAssignment(db, now, t, s, f);
            r.AssignmentIs? && r.assignment.Some?
            && EvalResult(r.assignment.value.enabled, r.assignment.value.variant) == outcome
  {
    hide Render;
  }

  /** A pinned answer is given to every evaluation that reads it, whatever the rules say. */
  lemma PinnedAnswers(
    cfg: Config, db: Db, k: string, ctx: EvaluationContext, w: World, key: string, outcome: EvalResult)
    requires FindsPersistent(cfg, db, k, ctx, w) && UsedKey(cfg, db, k, ctx, w) == key
    requires Pinned(db, key, outcome) && w.readOk
    ensures Evaluate(cfg, db, k, ctx, w) ==
            (db, EvaluationResult(
               ctx.tenantId, FoundFlag(cfg, db, k, ctx, w).key, outcome.enabled, outcome.variant, Persisted))
  {
    PersistentEvaluation(cfg, db, k, ctx, w);
    PinnedIsRead(db, ctx.tenantId, ctx.subjectId, FoundFlag(cfg, db, k, ctx, w).key, outcome, w.now);
    hide Pinned, AssignmentKey, DoGetAssignment, EvaluateRules, Evaluate, FindsPersistent, FoundFlag;
  }

  /** A saved answer is pinned. */
  lemma SaveHere(db: Db, t: string, a: Assignment, now: int)
    requires a.expiresAt <= 0
    ensures Pinned(
              DoSaveAssignment(db, now, t, a).0, AssignmentKey(t, a.subjectId, a.flagKey),
              EvalResult(a.enabled, a.variant))
  {
    hide Render;
  }

  /** Exactly when a save without expiry leaves a pinned answer: it goes elsewhere, or says the same. */
  lemma SaveKeepsExactlyWhen(db: Db, t: string, a: Assignment, now: int, key: string, outcome: EvalResult)
    requires Pinned(db, key, outcome) && a.expiresAt <= 0
    ensures Pinned(DoSaveAssignment(db, now, t, a).0, key, outcome) <==>
            AssignmentKey(t, a.subjectId, a.flagKey) != key || EvalResult(a.enabled, a.variant) == outcome
  {
    hide Render;
  }

  /** An evaluation that computes an answer and saves it leaves that answer pinned. */
  lemma ComputedIsPinned(cfg: Config, db: Db, k: string, ctx: EvaluationContext, w: World)
    requires FindsPersistent(cfg, db, k, ctx, w)
    requires w.saved && Evaluate(cfg, db, k, ctx, w).1.reason != Persisted
    ensures var (db', r) := Evaluate(cfg, db, k, ctx, w);
            OutcomeOf(r) == RulesSay(cfg, db, k, ctx, w) && Pinned(db', UsedKey(cfg, db, k, ctx, w), OutcomeOf(r))
  {
    var flag := FoundFlag(cfg, db, k, ctx, w);
    var result := EvaluateRules(cfg.lib, flag, ctx, w.draws);
    AnswersOwnKey(cfg.lib, flag, ctx, w.draws);
    PersistentEvaluation(cfg, db, k, ctx, w);
    SaveHere(db, ctx.tenantId, NewAssignment(ctx, result, w.now), w.now);
    hide Pinned, AssignmentKey, DoGetAssignment, DoSaveAssignment, EvaluateRules, Evaluate, FindsPersistent, FoundFlag;
  }

  /** After a failed read the answer of the rules is given and, if the save goes through, replaces what is stored. */
  lemma FailedReadOverwrites(cfg: Config, db: Db, k: string, ctx: EvaluationContext, w: World)
    requires FindsPersistent(cfg, db, k, ctx, w) && !w.readOk
    ensures var (db', r) := Evaluate(cfg, db, k, ctx, w);
            var flag := FoundFlag(cfg, db, k, ctx, w);
            var a := NewAssignment(ctx, r, w.now);
            && r == EvaluateRules(cfg.lib, flag, ctx, w.draws)
            && a.flagKey == flag.key && a.expiresAt == 0
            && db' == if w.saved then DoSaveAssignment(db, w.now, ctx.tenantId, a).0 else db
  {
    PersistentEvaluation(cfg, db, k, ctx, w);
    AnswersOwnKey(cfg.lib, FoundFlag(cfg, db, k, ctx, w), ctx, w.draws);
    hide DoGetAssignment, DoSaveAssignment, EvaluateRules, Evaluate, FindsPersistent, FoundFlag;
  }

  // ---- Exactly what keeps a stored answer ----

  /** The call writes a record under the key. */
  predicate StoresAt(op: Op, key: string) {
    match op
    case CreateFlag(t, f) => Render(FlagPath(t, f.key)) == key
    case UpdateFlag(t, f) => Render(FlagPath(t, f.key)) == key
    case DeleteFlag(t, k) => Render(FlagPath(t, k)) == key
    case SaveAssignment(t, a) => AssignmentKey(t, a.subjectId, a.flagKey) == key
    case CreateExperiment(t, e) => Render(ExperimentPath(t, e.key)) == key
    case UpdateExperiment(t, e) => Render(ExperimentPath(t, e.key)) == key
    case CreateAPIKey(t, k) => Render(ApiKeyPath(t, k.id)) == key || Render(HashPath(k.keyHash)) == key
    case RevokeAPIKey(t, id) => Render(ApiKeyPath(t, id)) == key
    case _ => false
  }

  predicate SavesTheSame(op: Op, outcome: EvalResult) {
    && op.SaveAssignment? && op.assignment.expiresAt <= 0
    && EvalResult(op.assignment.enabled, op.assignment.variant) == outcome
  }

  /** A new record under the key displaces the answer; its index entry does not. */
  lemma CreationDisplaces(
    db: Db, now: int, record: string, doc: Doc, index: string, member: string, key: string, outcome: EvalResult)
    requires Pinned(db, key, outcome) && !doc.AssignmentDoc?
    ensures var db1 := Set(db, record, doc, None);
            var added := SAdd(db1, now, index, member);
            && (Pinned(db1, key, outcome) <==> record != key)
            && (added.Some? ==> (Pinned(added.value, key, outcome) <==> record != key))
  {
  }

  lemma DeletionDisplaces(
    db: Db, now: int, record: string, index: string, member: string, key: string, outcome: EvalResult)
    requires Pinned(db, key, outcome)
    ensures var db1 := Del(db, record);
            var removed := SRem(db1, now, index, member);
            && (Pinned(db1, key, outcome) <==> record != key)
            && (removed.Some? ==> (Pinned(removed.value, key, outcome) <==> record != key))
  {
  }

  /** Of all RPCs of anybody, those and only those lose the answer that write something else under its key. */
  lemma CallKeepsExactlyWhen(db: Db, op: Op, now: int, key: string, outcome: EvalResult)
    requires Pinned(db, key, outcome)
    ensures Pinned(Step(db, op, now).0, key, outcome) <==> !StoresAt(op, key) || SavesTheSame(op, outcome)
  {
    hide Render, BuildKey, SAdd, SRem, DoListFlags, DoListExperiments, DoListAPIKeys, DoGetAPIKeyByHash;
    match op
    case CreateFlag(t, f) =>
      var doc := FlagDoc(StampedFlag(f, Unix(now), Unix(now)));
      CreationDisplaces(db, now, Render(FlagPath(t, f.key)), doc, Render(FlagKeys(t)), f.key, key, outcome);
    case DeleteFlag(t, k) =>
      DeletionDisplaces(db, now, Render(FlagPath(t, k)), Render(FlagKeys(t)), k, key, outcome);
    case CreateExperiment(t, e) =>
      var doc := ExperimentDoc(StampedExperiment(e, Unix(now), Unix(now)));
      CreationDisplaces(
        db, now, Render(ExperimentPath(t, e.key)), doc, Render(ExperimentKeys(t)), e.key, key, outcome);
    case CreateAPIKey(t, k) =>
      var doc := ApiKeyDoc(ApiKeyData(t, NewApiKey(now, k)));
      CreationDisplaces(db, now, Render(ApiKeyPath(t, k.id)), doc, Render(ApiKeyIds(t)), k.id, key, outcome);
    case UpdateFlag(_, _) =>
    case UpdateExperiment(_, _) =>
    case RevokeAPIKey(_, _) =>
    case SaveAssignment(_, _) =>
    case _ =>
  }

  /** The read fails, the save goes through, and the rules say something else. */
  predicate Overrules(
    cfg: Config, db: Db, k: string, ctx: EvaluationContext, w: World, key: string, outcome: EvalResult)
  {
    && FindsPersistent(cfg, db, k, ctx, w) && UsedKey(cfg, db, k, ctx, w) == key
    && !w.readOk && w.saved && RulesSay(cfg, db, k, ctx, w) != outcome
  }

  /** What an evaluation saves under another key does not matter here. */
  lemma SavedElsewhere(
    cfg: Config, db: Db, k: string, ctx: EvaluationContext, w: World, key: string, outcome: EvalResult)
    requires Pinned(db, key, outcome) && FindsPersistent(cfg, db, k, ctx, w) && UsedKey(cfg, db, k, ctx, w) != key
    ensures Pinned(Evaluate(cfg, db, k, ctx, w).0, key, outcome)
  {
    var flag := FoundFlag(cfg, db, k, ctx, w);
    var a := NewAssignment(ctx, EvaluateRules(cfg.lib, flag, ctx, w.draws), w.now);
    AnswersOwnKey(cfg.lib, flag, ctx, w.draws);
    PersistentEvaluation(cfg, db, k, ctx, w);
    SaveKeepsExactlyWhen(db, ctx.tenantId, a, w.now, key, outcome);
    hide Pinned, AssignmentKey, DoGetAssignment, DoSaveAssignment, EvaluateRules, Evaluate, FindsPersistent, FoundFlag;
  }

  /** Of all evaluations of anybody, exactly those lose the answer that overrule it after a failed read. */
  lemma EvaluationKeepsExactlyWhen(
    cfg: Config, db: Db, k: string, ctx: EvaluationContext, w: World, key: string, outcome: EvalResult)
    requires Pinned(db, key, outcome)
    ensures Pinned(Evaluate(cfg, db, k, ctx, w).0, key, outcome) <==> !Overrules(cfg, db, k, ctx, w, key, outcome)
  {
    hide Pinned, AssignmentKey, DoSaveAssignment, EvaluateRules, Evaluate, FindsPersistent, FoundFlag;
    if !FindsPersistent(cfg, db, k, ctx, w) {
      NothingSaved(cfg, db, k, ctx, w);
    } else if UsedKey(cfg, db, k, ctx, w) != key {
      SavedElsewhere(cfg, db, k, ctx, w, key, outcome);
    } else if w.readOk {
      PinnedAnswers(cfg, db, k, ctx, w, key, outcome);
    } else {
      FailedReadOverwrites(cfg, db, k, ctx, w);
      SaveKeepsExactlyWhen(
        db, ctx.tenantId, NewAssignment(ctx, Evaluate(cfg, db, k, ctx, w).1, w.now), w.now, key, outcome);
    }
  }

  /**
   * Exactly when one evaluation honours a stored answer: it is given again if and
   * only if the read succeeds or the rules say the same; and it stays stored if and
   * only if the read succeeds, the save fails, or the rules say the same.
   */
  lemma StoredAnswerSurvivesExactlyWhen(
    cfg: Config, db: Db, k: string, ctx: EvaluationContext, w: World, outcome: EvalResult)
    requires FindsPersistent(cfg, db, k, ctx, w) && Pinned(db, UsedKey(cfg, db, k, ctx, w), outcome)
    ensures var (db', r) := Evaluate(cfg, db, k, ctx, w);
            var rules := RulesSay(cfg, db, k, ctx, w);
            && (OutcomeOf(r) == outcome <==> w.readOk || rules == outcome)
            && (Pinned(db', UsedKey(cfg, db, k, ctx, w), outcome) <==> w.readOk || !w.saved || rules == outcome)
  {
    var key := UsedKey(cfg, db, k, ctx, w);
    EvaluationKeepsExactlyWhen(cfg, db, k, ctx, w, key, outcome);
    hide Pinned, AssignmentKey, DoSaveAssignment, Evaluate, FindsPersistent, FoundFlag, EvaluateRules;
    if w.readOk {
      PinnedAnswers(cfg, db, k, ctx, w, key, outcome);
    } else {
      FailedReadOverwrites(cfg, db, k, ctx, w);
    }
  }

  // ---- Runs ----

  /** Anything may happen: an RPC of anybody, or an evaluation of anybody. */
  datatype Event = Rpc(call: Call) | Evaluated(key: string, ctx: EvaluationContext, world: World)

  ghost function After(cfg: Config, db: Db, e: Event): Db {
    match e
    case Rpc(call) => Step(db, call.op, call.now).0
    case Evaluated(k, ctx, w) => Evaluate(cfg, db, k, ctx, w).0
  }

  ghost function AfterAll(cfg: Config, db: Db, events: seq<Event>): Db
    decreases |events|
  {
    if events == [] then db else AfterAll(cfg, After(cfg, db, events[0]), events[1..])
  }

  /** The event puts something else in the place of the answer. */
  predicate Overwrites(cfg: Config, db: Db, e: Event, key: string, outcome: EvalResult) {
    match e
    case Rpc(call) => StoresAt(call.op, key) && !SavesTheSame(call.op, outcome)
    case Evaluated(k, ctx, w) => Overrules(cfg, db, k, ctx, w, key, outcome)
  }

  ghost predicate NoneOverwrites(cfg: Config, db: Db, events: seq<Event>, key: string, outcome: EvalResult)
    decreases |events|
  {
    events != [] ==>
      && !Overwrites(cfg, db, events[0], key, outcome)
      && NoneOverwrites(cfg, After(cfg, db, events[0]), events[1..], key, outcome)
  }

  ghost predicate AlwaysPinned(cfg: Config, db: Db, events: seq<Event>, key: string, outcome: EvalResult)
    decreases |events|
  {
    && Pinned(db, key, outcome)
    && (events != [] ==> AlwaysPinned(cfg, After(cfg, db, events[0]), events[1..], key, outcome))
  }

  lemma EventKeepsExactlyWhen(cfg: Config, db: Db, e: Event, key: string, outcome: EvalResult)
    requires Pinned(db, key, outcome)
    ensures Pinned(After(cfg, db, e), key, outcome) <==> !Overwrites(cfg, db, e, key, outcome)
  {
    hide Pinned, Step, Evaluate, StoresAt, SavesTheSame, Overrules;
    match e
    case Rpc(call) => CallKeepsExactlyWhen(db, call.op, call.now, key, outcome);
    case Evaluated(k, ctx, w) => EvaluationKeepsExactlyWhen(cfg, db, k, ctx, w, key, outcome);
  }

  /** Over every run, a stored answer is there all the time if and only if no event of the run overwrites it. */
  lemma {:induction false} PinnedThroughoutExactlyWhen(
    cfg: Config, db: Db, events: seq<Event>, key: string, outcome: EvalResult)
    requires Pinned(db, key, outcome)
    ensures AlwaysPinned(cfg, db, events, key, outcome) <==> NoneOverwrites(cfg, db, events, key, outcome)
    ensures AlwaysPinned(cfg, db, events, key, outcome) ==> Pinned(AfterAll(cfg, db, events), key, outcome)
    decreases |events|
  {
    hide Pinned, After, Overwrites;
    if events != [] {
      var next := After(cfg, db, events[0]);
      EventKeepsExactlyWhen(cfg, db, events[0], key, outcome);
      if Pinned(next, key, outcome) {
        PinnedThroughoutExactlyWhen(cfg, next, events[1..], key, outcome);
      }
    }
  }

  /** An evaluation has computed an answer and saved it. */
  predicate Saves(cfg: Config, db: Db, k: string, ctx: EvaluationContext, w: World) {
    FindsPersistent(cfg, db, k, ctx, w) && w.saved && Evaluate(cfg, db, k, ctx, w).1.reason != Persisted
  }

  lemma StillPinned(cfg: Config, db: Db, k: string, ctx: EvaluationContext, w: World, events: seq<Event>)
    requires Saves(cfg, db, k, ctx, w)
    requires var (db', r) := Evaluate(cfg, db, k, ctx, w);
             NoneOverwrites(cfg, db', events, UsedKey(cfg, db, k, ctx, w), OutcomeOf(r))
    ensures var (db', r) := Evaluate(cfg, db, k, ctx, w);
            Pinned(AfterAll(cfg, db', events), UsedKey(cfg, db, k, ctx, w), OutcomeOf(r))
  {
    ComputedIsPinned(cfg, db, k, ctx, w);
    var (db', r) := Evaluate(cfg, db, k, ctx, w);
    hide Pinned, Evaluate, NoneOverwrites, FindsPersistent;
    PinnedThroughoutExactlyWhen(cfg, db', events, UsedKey(cfg, db, k, ctx, w), OutcomeOf(r));
  }

  /**
   * Stickiness over runs: once an evaluation of a persistent flag has computed and
   * saved its answer, every later evaluation that finds its flag enabled and
   * persistent and reads under the same key, as those of the same tenant, subject
   * and flag do, gives that answer again with reason persisted, whatever has
   * happened in between short of overwriting it: rule edits, deletions and
   * re-creations of the flag, and evaluations and RPCs of anybody.
   */
  lemma StickyOverRuns(
    cfg: Config, db: Db, k1: string, ctx1: EvaluationContext, w1: World,
    events: seq<Event>, k2: string, ctx2: EvaluationContext, w2: World)
    requires Saves(cfg, db, k1, ctx1, w1)
    requires var (db1, r1) := Evaluate(cfg, db, k1, ctx1, w1);
             var db2 := AfterAll(cfg, db1, events);
             && NoneOverwrites(cfg, db1, events, UsedKey(cfg, db, k1, ctx1, w1), OutcomeOf(r1))
             && FindsPersistent(cfg, db2, k2, ctx2, w2) && w2.readOk
             && UsedKey(cfg, db2, k2, ctx2, w2) == UsedKey(cfg, db, k1, ctx1, w1)
    ensures var (db1, r1) := Evaluate(cfg, db, k1, ctx1, w1);
            var db2 := AfterAll(cfg, db1, events);
            Evaluate(cfg, db2, k2, ctx2, w2) ==
            (db2, EvaluationResult(
               ctx2.tenantId, FoundFlag(cfg, db2, k2, ctx2, w2).key, r1.enabled, r1.variant, Persisted))
  {
    StillPinned(cfg, db, k1, ctx1, w1, events);
    var (db1, r1) := Evaluate(cfg, db, k1, ctx1, w1);
    hide Pinned, Evaluate, NoneOverwrites, FindsPersistent, UsedKey, FoundFlag, Saves;
    PinnedAnswers(cfg, AfterAll(cfg, db1, events), k2, ctx2, w2, UsedKey(cfg, db, k1, ctx1, w1), OutcomeOf(r1));
  }

  /**
   * The same whether or not the read succeeds: the saved answer is given again if
   * and only if it does or the rules of that moment say the same.
   */
  lemma StickyOverRunsExactlyWhen(
    cfg: Config, db: Db, k1: string, ctx1: EvaluationContext, w1: World,
    events: seq<Event>, k2: string, ctx2: EvaluationContext, w2: World)
    requires Saves(cfg, db, k1, ctx1, w1)
    requires var (db1, r1) := Evaluate(cfg, db, k1, ctx1, w1);
             var db2 := AfterAll(cfg, db1, events);
             && NoneOverwrites(cfg, db1, events, UsedKey(cfg, db, k1, ctx1, w1), OutcomeOf(r1))
             && FindsPersistent(cfg, db2, k2, ctx2, w2)
             && UsedKey(cfg, db2, k2, ctx2, w2) == UsedKey(cfg, db, k1, ctx1, w1)
    ensures var (db1, r1) := Evaluate(cfg, db, k1, ctx1, w1);
            var db2 := AfterAll(cfg, db1, events);
            OutcomeOf(Evaluate(cfg, db2, k2, ctx2, w2).1) == OutcomeOf(r1) <==>
            w2.readOk || RulesSay(cfg, db2, k2, ctx2, w2) == OutcomeOf(r1)
  {
    StillPinned(cfg, db, k1, ctx1, w1, events);
    var (db1, r1) := Evaluate(cfg, db, k1, ctx1, w1);
    hide Pinned, Evaluate, NoneOverwrites, FindsPersistent, UsedKey, FoundFlag, RulesSay, Saves;
    StoredAnswerSurvivesExactlyWhen(cfg, AfterAll(cfg, db1, events), k2, ctx2, w2, OutcomeOf(r1));
  }

  // ---- The same request again ----

  /** Where flags are under their own keys, the evaluation reads and saves for the very flag that was asked for. */
  lemma UsesOwnKey(cfg: Config, db: Db, k: string, ctx: EvaluationContext, w: World)
    requires FindsPersistent(cfg, db, k, ctx, w) && OwnFlags(db, ctx.tenantId)
    ensures FoundFlag(cfg, db, k, ctx, w).key == k
    ensures UsedKey(cfg, db, k, ctx, w) == AssignmentKey(ctx.tenantId, ctx.subjectId, k)
  {
    hide Render;
    assert OwnFlag(Lookup(db, Render(FlagPath(ctx.tenantId, k))), k);
  }

  /** The event is by t, or by a tenant that neither extends t by the word flags nor is so extended by it. */
  predicate HappensApart(e: Event, t: string) {
    match e
    case Rpc(call) => CalledApart(call.op, t, FLAGS)
    case Evaluated(_, ctx, _) => Separate(ctx.tenantId, t, FLAGS)
  }

  lemma EvaluationIsSave(cfg: Config, db: Db, k: string, ctx: EvaluationContext, w: World)
    ensures var db' := Evaluate(cfg, db, k, ctx, w).0;
            db' == db || exists a: Assignment :: db' == Step(db, SaveAssignment(ctx.tenantId, a), w.now).0
  {
    hide DoSaveAssignment, DoGetFlag, DoGetAssignment, EvaluateRules;
    if FindsPersistent(cfg, db, k, ctx, w) {
      var a := NewAssignment(ctx, EvaluateRules(cfg.lib, FoundFlag(cfg, db, k, ctx, w), ctx, w.draws), w.now);
      assert Step(db, SaveAssignment(ctx.tenantId, a), w.now).0 == DoSaveAssignment(db, w.now, ctx.tenantId, a).0;
    }
  }

  lemma OwnFlagsAfter(cfg: Config, db: Db, e: Event, t: string)
    requires OwnFlags(db, t) && HappensApart(e, t)
    ensures OwnFlags(After(cfg, db, e), t)
  {
    hide OwnFlags, Step, Evaluate, Separate;
    match e
    case Rpc(call) => OwnFlagsKept(db, call.op, call.now, t);
    case Evaluated(k, ctx, w) =>
      EvaluationIsSave(cfg, db, k, ctx, w);
      var db' := Evaluate(cfg, db, k, ctx, w).0;
      if db' != db {
        var a: Assignment :| db' == Step(db, SaveAssignment(ctx.tenantId, a), w.now).0;
        OwnFlagsKept(db, SaveAssignment(ctx.tenantId, a), w.now, t);
      }
  }

  lemma {:induction false} OwnFlagsAfterAll(cfg: Config, db: Db, events: seq<Event>, t: string)
    requires OwnFlags(db, t) && forall e <- events :: HappensApart(e, t)
    ensures OwnFlags(AfterAll(cfg, db, events), t)
    decreases |events|
  {
    hide OwnFlags, After, HappensApart;
    if events != [] {
      OwnFlagsAfter(cfg, db, events[0], t);
      OwnFlagsAfterAll(cfg, After(cfg, db, events[0]), events[1..], t);
    }
  }

  /** The same tenant, subject and flag get the saved answer again unless something overwrites it. */
  lemma StickyUnlessOverwritten(
    cfg: Config, db: Db, k: string, ctx1: EvaluationContext, w1: World,
    events: seq<Event>, ctx2: EvaluationContext, w2: World)
    requires OwnFlags(db, ctx1.tenantId) && Saves(cfg, db, k, ctx1, w1)
    requires ctx2.tenantId == ctx1.tenantId && ctx2.subjectId == ctx1.subjectId
    requires forall e <- events :: HappensApart(e, ctx1.tenantId)
    requires var (db1, r1) := Evaluate(cfg, db, k, ctx1, w1);
             && NoneOverwrites(cfg, db1, events, AssignmentKey(ctx1.tenantId, ctx1.subjectId, k), OutcomeOf(r1))
             && FindsPersistent(cfg, AfterAll(cfg, db1, events), k, ctx2, w2) && w2.readOk
    ensures var (db1, r1) := Evaluate(cfg, db, k, ctx1, w1);
            Evaluate(cfg, AfterAll(cfg, db1, events), k, ctx2, w2).1 ==
            EvaluationResult(ctx1.tenantId, k, r1.enabled, r1.variant, Persisted)
  {
    var db1 := Evaluate(cfg, db, k, ctx1, w1).0;
    OwnFlagsAfter(cfg, db, Evaluated(k, ctx1, w1), ctx1.tenantId);
    OwnFlagsAfterAll(cfg, db1, events, ctx1.tenantId);
    UsesOwnKey(cfg, db, k, ctx1, w1);
    UsesOwnKey(cfg, AfterAll(cfg, db1, events), k, ctx2, w2);
    hide OwnFlags, Pinned, Evaluate, NoneOverwrites, FindsPersistent, UsedKey, FoundFlag, AssignmentKey;
    StickyOverRuns(cfg, db, k, ctx1, w1, events, k, ctx2, w2);
  }

  // ---- Events that overwrite nothing, by what they are ----

  /** Another tenant that has no key among the assignments of t. */
  predicate SparesAssignments(u: string, t: string) {
    u != t && !Extends(u, t) && !ExtendsBy(t, u, "assignments")
  }

  predicate SameText(s: string, f: string, s': string, f': string) {
    s + (":" + f) == s' + (":" + f')
  }

  /**
   * The event is none that could overwrite the answer of tenant t for subject s and
   * flag f: no save of t for that subject and flag, and no evaluation of t for them
   * whose read fails. Rule edits and other tenants, subjects and flags are all right.
   */
  predicate Harmless(e: Event, t: string, s: string, f: string) {
    match e
    case Rpc(call) =>
      || call.op.GetAPIKeyByHash?
      || (if call.op.tenant == t
          then !(call.op.SaveAssignment?
                 && SameText(call.op.assignment.subjectId, call.op.assignment.flagKey, s, f))
          else SparesAssignments(call.op.tenant, t))
    case Evaluated(k, ctx, w) =>
      || w.readOk
      || (if ctx.tenantId == t then !SameText(ctx.subjectId, k, s, f) else SparesAssignments(ctx.tenantId, t))
  }

  lemma OthersKeyApart(q: Path, t: string, s: string, f: string)
    requires !q.HashPath? && SparesAssignments(q.tenant, t)
    ensures Render(q) != AssignmentKey(t, s, f)
  {
    hide Render, Extends, ExtendsBy;
    if Render(q) == Render(AssignmentPath(t, s, f)) {
      if |t| <= |q.tenant| {
        CollisionExtendsBy(AssignmentPath(t, s, f), q);
      } else {
        CollisionExtends(q, AssignmentPath(t, s, f));
      }
    }
  }

  lemma OwnKeyApart(q: Path, s: string, f: string)
    requires !q.HashPath? && !q.AssignmentPath?
    ensures Render(q) != AssignmentKey(q.tenant, s, f)
  {
    hide Render;
    if Render(q) == Render(AssignmentPath(q.tenant, s, f)) {
      FamiliesApart(q, AssignmentPath(q.tenant, s, f));
    }
  }

  lemma HashKeyApart(h: string, t: string, s: string, f: string)
    requires !InHashSpace(t)
    ensures Render(HashPath(h)) != AssignmentKey(t, s, f)
  {
    hide Render, InHashSpace;
    if Render(AssignmentPath(t, s, f)) == Render(HashPath(h)) {
      HashKeysApart(AssignmentPath(t, s, f), h);
    }
  }

  lemma PathApart(q: Path, t: string, s: string, f: string)
    requires !InHashSpace(t)
    requires q.HashPath? || SparesAssignments(q.tenant, t) || (q.tenant == t && !q.AssignmentPath?)
    ensures Render(q) != AssignmentKey(t, s, f)
  {
    hide Render, InHashSpace, SparesAssignments, AssignmentKey;
    if q.HashPath? {
      HashKeyApart(q.hash, t, s, f);
    } else if q.tenant == t && !q.AssignmentPath? {
      OwnKeyApart(q, s, f);
    } else {
      OthersKeyApart(q, t, s, f);
    }
  }

  lemma HarmlessCall(op: Op, now: int, t: string, s: string, f: string)
    requires !InHashSpace(t) && Harmless(Rpc(Call(op, now)), t, s, f)
    ensures !StoresAt(op, AssignmentKey(t, s, f))
  {
    hide Render, InHashSpace, SparesAssignments;
    match op
    case CreateFlag(u, g) => PathApart(FlagPath(u, g.key), t, s, f);
    case UpdateFlag(u, g) => PathApart(FlagPath(u, g.key), t, s, f);
    case DeleteFlag(u, k) => PathApart(FlagPath(u, k), t, s, f);
    case SaveAssignment(u, a) =>
      if u == t {
        AssignmentsShareKeyExactlyWhen(t, a.subjectId, a.flagKey, s, f);
      } else {
        PathApart(AssignmentPath(u, a.subjectId, a.flagKey), t, s, f);
      }
    case CreateExperiment(u, e) => PathApart(ExperimentPath(u, e.key), t, s, f);
    case UpdateExperiment(u, e) => PathApart(ExperimentPath(u, e.key), t, s, f);
    case CreateAPIKey(u, k) =>
      PathApart(ApiKeyPath(u, k.id), t, s, f);
      PathApart(HashPath(k.keyHash), t, s, f);
    case RevokeAPIKey(u, id) => PathApart(ApiKeyPath(u, id), t, s, f);
    case _ =>
  }

  lemma HarmlessEvent(cfg: Config, db: Db, e: Event, t: string, s: string, f: string, outcome: EvalResult)
    requires !InHashSpace(t) && OwnFlags(db, t) && Harmless(e, t, s, f)
    ensures !Overwrites(cfg, db, e, AssignmentKey(t, s, f), outcome)
  {
    match e
    case Rpc(call) =>
      hide InHashSpace, Harmless, StoresAt, AssignmentKey;
      HarmlessCall(call.op, call.now, t, s, f);
    case Evaluated(k, ctx, w) =>
      hide InHashSpace, OwnFlags, SparesAssignments, AssignmentKey, FindsPersistent, FoundFlag, RulesSay;
      if FindsPersistent(cfg, db, k, ctx, w) && !w.readOk {
        if ctx.tenantId == t {
          UsesOwnKey(cfg, db, k, ctx, w);
          AssignmentsShareKeyExactlyWhen(t, ctx.subjectId, k, s, f);
        } else {
          PathApart(AssignmentPath(ctx.tenantId, ctx.subjectId, FoundFlag(cfg, db, k, ctx, w).key), t, s, f);
          KeyIsRendered(ctx.tenantId, ctx.subjectId, FoundFlag(cfg, db, k, ctx, w).key);
        }
      }
  }

  lemma KeyIsRendered(t: string, s: string, f: string)
    ensures AssignmentKey(t, s, f) == Render(AssignmentPath(t, s, f))
  {
  }

  /** No run of such events overwrites anything. */
  lemma {:induction false} HarmlessRun(
    cfg: Config, db: Db, events: seq<Event>, t: string, s: string, f: string, outcome: EvalResult)
    requires !InHashSpace(t) && OwnFlags(db, t)
    requires forall e <- events :: HappensApart(e, t) && Harmless(e, t, s, f)
    ensures NoneOverwrites(cfg, db, events, AssignmentKey(t, s, f), outcome)
    decreases |events|
  {
    hide InHashSpace, OwnFlags, HappensApart, Harmless, After, Overwrites, AssignmentKey;
    if events != [] {
      assert HappensApart(events[0], t) && Harmless(events[0], t, s, f);
      HarmlessEvent(cfg, db, events[0], t, s, f, outcome);
      OwnFlagsAfter(cfg, db, events[0], t);
      HarmlessRun(cfg, After(cfg, db, events[0]), events[1..], t, s, f, outcome);
    }
  }

  /**
   * So the same tenant, subject and flag get the saved answer again over every run
   * of rule edits, deletions and re-creations of flags, and of calls and evaluations
   * of other subjects and of tenants that share no key with this one; only nobody
   * saves that assignment directly, and no read of it fails.
   */
  lemma StickyForOneSubject(
    cfg: Config, db: Db, k: string, ctx1: EvaluationContext, w1: World,
    events: seq<Event>, ctx2: EvaluationContext, w2: World)
    requires !InHashSpace(ctx1.tenantId) && OwnFlags(db, ctx1.tenantId) && Saves(cfg, db, k, ctx1, w1)
    requires ctx2.tenantId == ctx1.tenantId && ctx2.subjectId == ctx1.subjectId
    requires forall e <- events :: HappensApart(e, ctx1.tenantId) && Harmless(e, ctx1.tenantId, ctx1.subjectId, k)
    requires FindsPersistent(cfg, AfterAll(cfg, Evaluate(cfg, db, k, ctx1, w1).0, events), k, ctx2, w2) && w2.readOk
    ensures var (db1, r1) := Evaluate(cfg, db, k, ctx1, w1);
            Evaluate(cfg, AfterAll(cfg, db1, events), k, ctx2, w2).1 ==
            EvaluationResult(ctx1.tenantId, k, r1.enabled, r1.variant, Persisted)
  {
    var (db1, r1) := Evaluate(cfg, db, k, ctx1, w1);
    OwnFlagsAfter(cfg, db, Evaluated(k, ctx1, w1), ctx1.tenantId);
    hide OwnFlags, InHashSpace, HappensApart, Harmless, Saves, Evaluate, FindsPersistent, NoneOverwrites, AssignmentKey;
    HarmlessRun(cfg, db1, events, ctx1.tenantId, ctx1.subjectId, k, OutcomeOf(r1));
    StickyUnlessOverwritten(cfg, db, k, ctx1, w1, events, ctx2, w2);
  }
}
