/** Runs in which one subject is given the answer of another, or an answer changes. */
module SharedAnswers {
  import opened Options
  import opened Records
  import opened Keys
  import opened KeyConflicts
  import opened SubjectKeys
  import opened F = FlatStore
  import opened T = TenantStore
  import opened Refinement
  import opened Rules
  import opened Evaluation
  import opened Stickiness

  // ---- Flags that are stored ----

  /** A persistent flag without rules, which answers its default. */
  predicate RulesFree(f: FlagDefinition) {
    f.enabled && f.semantics == SEMANTICS_PERSISTENT && f.rules == []
  }

  /** The store holds the flag, up to its times. */
  ghost predicate Holds(db: Db, t: string, f: FlagDefinition) {
    exists created: int, updated: int ::
      Lookup(db, Render(FlagPath(t, f.key))) == Some(Data(FlagDoc(StampedFlag(f, created, updated)), None))
  }

  lemma CreationStores(db: Db, t: string, f: FlagDefinition, now: int)
    ensures Lookup(Step(db, CreateFlag(t, f), now).0, Render(FlagPath(t, f.key))) ==
            Some(Data(FlagDoc(StampedFlag(f, Unix(now), Unix(now))), None))
  {
    hide Render;
    if Render(FlagPath(t, f.key)) == Render(FlagKeys(t)) {
      FamiliesApart(FlagPath(t, f.key), FlagKeys(t));
    }
  }

  lemma UpdateStores(db: Db, t: string, f: FlagDefinition, g: FlagDefinition, now: int)
    requires Holds(db, t, f) && f.key == g.key
    ensures Holds(Step(db, UpdateFlag(t, g), now).0, t, g)
  {
    hide Render;
    var created: int, updated: int :|
      Lookup(db, Render(FlagPath(t, f.key))) == Some(Data(FlagDoc(StampedFlag(f, created, updated)), None));
    assert Lookup(Step(db, UpdateFlag(t, g), now).0, Render(FlagPath(t, g.key))) ==
           Some(Data(FlagDoc(StampedFlag(g, created, Unix(now))), None));
  }

  lemma HoldsSame(db: Db, db': Db, t: string, f: FlagDefinition)
    requires Holds(db, t, f) && Lookup(db', Render(FlagPath(t, f.key))) == Lookup(db, Render(FlagPath(t, f.key)))
    ensures Holds(db', t, f)
  {
    hide Render, StampedFlag;
  }

  /** A stored flag without rules answers its default. */
  lemma DefaultIsSaid(cfg: Config, db: Db, f: FlagDefinition, ctx: EvaluationContext, w: World)
    requires RulesFree(f) && cfg.persistent && w.flagOk && Holds(db, ctx.tenantId, f)
    ensures FindsPersistent(cfg, db, f.key, ctx, w) && RulesSay(cfg, db, f.key, ctx, w) == f.defaultResult
    ensures UsedKey(cfg, db, f.key, ctx, w) == AssignmentKey(ctx.tenantId, ctx.subjectId, f.key)
  {
    hide Render;
  }

  // ---- Keys of one tenant ----

  lemma FlagApartFromAssignment(t: string, k: string, s: string, f: string)
    ensures Render(FlagPath(t, k)) != AssignmentKey(t, s, f)
  {
    if Render(FlagPath(t, k)) == Render(AssignmentPath(t, s, f)) {
      FamiliesApart(FlagPath(t, k), AssignmentPath(t, s, f));
    }
  }

  lemma IndexApart(t: string, k: string, s: string, f: string)
    ensures Render(FlagKeys(t)) != AssignmentKey(t, s, f) && Render(FlagKeys(t)) != Render(FlagPath(t, k))
  {
    if Render(FlagKeys(t)) == Render(AssignmentPath(t, s, f)) {
      FamiliesApart(FlagKeys(t), AssignmentPath(t, s, f));
    }
    if Render(FlagKeys(t)) == Render(FlagPath(t, k)) {
      FamiliesApart(FlagKeys(t), FlagPath(t, k));
    }
  }

  lemma CreationLeavesOthers(db: Db, t: string, f: FlagDefinition, now: int, s: string, k: string)
    ensures Lookup(Step(db, CreateFlag(t, f), now).0, AssignmentKey(t, s, k)) == Lookup(db, AssignmentKey(t, s, k))
    ensures k != f.key ==>
              Lookup(Step(db, CreateFlag(t, f), now).0, Render(FlagPath(t, k))) == Lookup(db, Render(FlagPath(t, k)))
  {
    FlagApartFromAssignment(t, f.key, s, k);
    IndexApart(t, k, s, k);
    hide Render, Step;
    StepLeaves(db, CreateFlag(t, f), now, AssignmentKey(t, s, k));
    if k != f.key {
      FlagsApart(t, f.key, k);
      StepLeaves(db, CreateFlag(t, f), now, Render(FlagPath(t, k)));
    }
  }

  /** With nothing stored yet, the rules are answered, and their answer is pinned; flags stay. */
  lemma FirstAnswer(cfg: Config, db: Db, f: FlagDefinition, ctx: EvaluationContext, w: World, g: FlagDefinition)
    requires RulesFree(f) && cfg.persistent && w.flagOk && Holds(db, ctx.tenantId, f) && Holds(db, ctx.tenantId, g)
    requires Lookup(db, AssignmentKey(ctx.tenantId, ctx.subjectId, f.key)) == None
    ensures var (db', r) := Evaluate(cfg, db, f.key, ctx, w);
            && OutcomeOf(r) == f.defaultResult && Holds(db', ctx.tenantId, g)
            && (w.saved ==> Pinned(db', AssignmentKey(ctx.tenantId, ctx.subjectId, f.key), f.defaultResult))
    ensures var (db', r) := Evaluate(cfg, db, f.key, ctx, w);
            forall key: string :: key != AssignmentKey(ctx.tenantId, ctx.subjectId, f.key) ==>
              Lookup(db', key) == Lookup(db, key)
  {
    DefaultIsSaid(cfg, db, f, ctx, w);
    NothingToRead(cfg, db, f.key, ctx, w);
    var (db', r) := Evaluate(cfg, db, f.key, ctx, w);
    FlagApartFromAssignment(ctx.tenantId, g.key, ctx.subjectId, f.key);
    hide Render, Evaluate, FindsPersistent, FoundFlag, EvaluateRules, Holds;
    if w.saved {
      SaveHere(db, ctx.tenantId, NewAssignment(ctx, r, w.now), w.now);
    }
    HoldsSame(db, db', ctx.tenantId, g);
  }

  lemma NothingToRead(cfg: Config, db: Db, k: string, ctx: EvaluationContext, w: World)
    requires FindsPersistent(cfg, db, k, ctx, w) && Lookup(db, UsedKey(cfg, db, k, ctx, w)) == None
    ensures var (db', r) := Evaluate(cfg, db, k, ctx, w);
            var flag := FoundFlag(cfg, db, k, ctx, w);
            && r == EvaluateRules(cfg.lib, flag, ctx, w.draws) && r.flagKey == flag.key
            && db' == if w.saved then DoSaveAssignment(db, w.now, ctx.tenantId, NewAssignment(ctx, r, w.now)).0 else db
  {
    var flag := FoundFlag(cfg, db, k, ctx, w);
    PersistentEvaluation(cfg, db, k, ctx, w);
    AnswersOwnKey(cfg.lib, flag, ctx, w.draws);
    assert DoGetAssignment(db, w.now, ctx.tenantId, ctx.subjectId, flag.key) == AssignmentIs(None) by {
      hide Render, EvaluateRules, Evaluate, FindsPersistent, FoundFlag;
    }
    hide DoGetAssignment, DoSaveAssignment, EvaluateRules, Evaluate, FindsPersistent, FoundFlag;
  }

  // ---- One answer for two subjects ----

  /** An evaluation that saves changes nothing but what is stored under the key it uses. */
  lemma SaveLeaves(cfg: Config, db: Db, k: string, ctx: EvaluationContext, w: World, key: string)
    requires FindsPersistent(cfg, db, k, ctx, w) && key != UsedKey(cfg, db, k, ctx, w)
    ensures Lookup(Evaluate(cfg, db, k, ctx, w).0, key) == Lookup(db, key)
  {
    var flag := FoundFlag(cfg, db, k, ctx, w);
    PersistentEvaluation(cfg, db, k, ctx, w);
    AnswersOwnKey(cfg.lib, flag, ctx, w.draws);
    hide Render, DoGetAssignment, EvaluateRules, Evaluate, FindsPersistent, FoundFlag;
  }

  lemma SameFlagIsRead(db: Db, db': Db, now: int, t: string, k: string)
    requires Lookup(db', Render(FlagPath(t, k))) == Lookup(db, Render(FlagPath(t, k)))
    ensures DoGetFlag(db', now, t, k) == DoGetFlag(db, now, t, k)
  {
    hide Render;
  }

  lemma SameAssignmentIsRead(db: Db, db': Db, now: int, t: string, s: string, f: string)
    requires Lookup(db', AssignmentKey(t, s, f)) == Lookup(db, AssignmentKey(t, s, f))
    ensures DoGetAssignment(db', now, t, s, f) == DoGetAssignment(db, now, t, s, f)
  {
    hide Render;
  }

  /** Stores from which the same flag and assignment are read give the same answer. */
  lemma SameReadsSameAnswer(cfg: Config, db: Db, db': Db, k: string, ctx: EvaluationContext, w: World)
    requires DoGetFlag(db', w.now, ctx.tenantId, k) == DoGetFlag(db, w.now, ctx.tenantId, k)
    requires FindsPersistent(cfg, db, k, ctx, w) ==>
               var f := FoundFlag(cfg, db, k, ctx, w).key;
               DoGetAssignment(db', w.now, ctx.tenantId, ctx.subjectId, f) ==
               DoGetAssignment(db, w.now, ctx.tenantId, ctx.subjectId, f)
    ensures Evaluate(cfg, db', k, ctx, w).1 == Evaluate(cfg, db, k, ctx, w).1
  {
    hide DoGetFlag, DoGetAssignment, DoSaveAssignment, EvaluateRules;
  }

  /**
   * In any store: after one evaluation has saved its answer, another one of the same
   * tenant is given that answer if it uses the same key, and otherwise just what it
   * would have been given before.
   */
  lemma SaveReachesExactly(
    cfg: Config, db: Db, k1: string, ctx1: EvaluationContext, w1: World,
    k2: string, ctx2: EvaluationContext, w2: World)
    requires Saves(cfg, db, k1, ctx1, w1) && ctx1.tenantId == ctx2.tenantId && w2.readOk
    ensures var (db1, r1) := Evaluate(cfg, db, k1, ctx1, w1);
            var r2 := Evaluate(cfg, db1, k2, ctx2, w2).1;
            if FindsPersistent(cfg, db, k2, ctx2, w2)
               && ctx1.subjectId + (":" + FoundFlag(cfg, db, k1, ctx1, w1).key) ==
                  ctx2.subjectId + (":" + FoundFlag(cfg, db, k2, ctx2, w2).key)
            then r2 == EvaluationResult(
                         ctx2.tenantId, FoundFlag(cfg, db, k2, ctx2, w2).key, r1.enabled, r1.variant, Persisted)
            else r2 == Evaluate(cfg, db, k2, ctx2, w2).1
  {
    var t, key := ctx1.tenantId, UsedKey(cfg, db, k1, ctx1, w1);
    var f1 := FoundFlag(cfg, db, k1, ctx1, w1).key;
    var (db1, r1) := Evaluate(cfg, db, k1, ctx1, w1);
    ComputedIsPinned(cfg, db, k1, ctx1, w1);
    FlagApartFromAssignment(t, k2, ctx1.subjectId, f1);
    SaveLeaves(cfg, db, k1, ctx1, w1, Render(FlagPath(t, k2)));
    SameFlagIsRead(db, db1, w2.now, t, k2);
    if FindsPersistent(cfg, db, k2, ctx2, w2) {
      var f2 := FoundFlag(cfg, db, k2, ctx2, w2).key;
      AssignmentsShareKeyExactlyWhen(t, ctx1.subjectId, f1, ctx2.subjectId, f2);
      hide Render, DoGetFlag, Evaluate, Pinned, AssignmentKey;
      if AssignmentKey(t, ctx2.subjectId, f2) == key {
        PinnedAnswers(cfg, db1, k2, ctx2, w2, key, OutcomeOf(r1));
      } else {
        SaveLeaves(cfg, db, k1, ctx1, w1, AssignmentKey(t, ctx2.subjectId, f2));
        SameAssignmentIsRead(db, db1, w2.now, t, ctx2.subjectId, f2);
        SameReadsSameAnswer(cfg, db, db1, k2, ctx2, w2);
      }
    } else {
      hide Render, DoGetFlag, Evaluate, Pinned;
      SameReadsSameAnswer(cfg, db, db1, k2, ctx2, w2);
    }
  }

  /** A store with two flags and nothing else. */
  ghost function TwoFlags(t: string, f: FlagDefinition, g: FlagDefinition, now: int): Db {
    Step(Step(map[], CreateFlag(t, f), now).0, CreateFlag(t, g), now).0
  }

  lemma TwoFlagsStored(t: string, f: FlagDefinition, g: FlagDefinition, now: int, s: string, k: string)
    requires f.key != g.key
    ensures Holds(TwoFlags(t, f, g, now), t, f) && Holds(TwoFlags(t, f, g, now), t, g)
    ensures Lookup(TwoFlags(t, f, g, now), AssignmentKey(t, s, k)) == None
  {
    var one := Step(map[], CreateFlag(t, f), now).0;
    CreationStores(map[], t, f, now);
    CreationStores(one, t, g, now);
    CreationLeavesOthers(map[], t, f, now, s, k);
    CreationLeavesOthers(one, t, g, now, s, k);
    CreationLeavesOthers(one, t, g, now, s, f.key);
    hide Render, Step;
  }

  /**
   * Two flags that answer differently, evaluated one after the other for two
   * subjects of a tenant: the second evaluation is given the answer of the first
   * if and only if subject, colon and flag join to one and the same text.
   */
  lemma AnswerIsSharedExactlyWhen(
    cfg: Config, f: FlagDefinition, g: FlagDefinition, ctx1: EvaluationContext, ctx2: EvaluationContext,
    w1: World, w2: World, now: int)
    requires cfg.persistent && RulesFree(f) && RulesFree(g)
    requires f.key != g.key && f.defaultResult != g.defaultResult && ctx1.tenantId == ctx2.tenantId
    requires w1.flagOk && w1.saved && w2.flagOk && w2.readOk
    ensures var (db1, r1) := Evaluate(cfg, TwoFlags(ctx1.tenantId, f, g, now), f.key, ctx1, w1);
            var r2 := Evaluate(cfg, db1, g.key, ctx2, w2).1;
            && OutcomeOf(r1) == f.defaultResult
            && (OutcomeOf(r2) == f.defaultResult <==>
                ctx1.subjectId + (":" + f.key) == ctx2.subjectId + (":" + g.key))
  {
    var t, db := ctx1.tenantId, TwoFlags(ctx1.tenantId, f, g, now);
    var here := AssignmentKey(t, ctx1.subjectId, f.key);
    var there := AssignmentKey(t, ctx2.subjectId, g.key);
    TwoFlagsStored(t, f, g, now, ctx1.subjectId, f.key);
    TwoFlagsStored(t, f, g, now, ctx2.subjectId, g.key);
    hide TwoFlags, Holds, Evaluate, Pinned, AssignmentKey, RulesFree, FindsPersistent;
    FirstAnswer(cfg, db, f, ctx1, w1, g);
    var (db1, r1) := Evaluate(cfg, db, f.key, ctx1, w1);
    AssignmentsShareKeyExactlyWhen(t, ctx1.subjectId, f.key, ctx2.subjectId, g.key);
    DefaultIsSaid(cfg, db1, g, ctx2, w2);
    hide UsedKey, FoundFlag;
    if here == there {
      PinnedAnswers(cfg, db1, g.key, ctx2, w2, there, f.defaultResult);
    } else {
      FirstAnswer(cfg, db1, g, ctx2, w2, g);
    }
  }

  /** For instance, what is saved for subject a and flag b:c is the answer to subject a:b for flag c. */
  lemma ColonSubjectIsGivenAnothersAnswer(
    cfg: Config, f: FlagDefinition, g: FlagDefinition, ctx1: EvaluationContext, ctx2: EvaluationContext,
    w1: World, w2: World, now: int)
    requires cfg.persistent && RulesFree(f) && RulesFree(g) && ctx1.tenantId == ctx2.tenantId
    requires f.key == "b:c" && g.key == "c" && ctx1.subjectId == "a" && ctx2.subjectId == "a:b"
    requires f.defaultResult != g.defaultResult
    requires w1.flagOk && w1.saved && w2.flagOk && w2.readOk
    ensures var db1 := Evaluate(cfg, TwoFlags(ctx1.tenantId, f, g, now), f.key, ctx1, w1).0;
            OutcomeOf(Evaluate(cfg, db1, g.key, ctx2, w2).1) == f.defaultResult
  {
    assert |f.key| == 3 && |g.key| == 1;
    assert "a" + (":" + "b:c") == "a:b" + (":" + "c");
    AnswerIsSharedExactlyWhen(cfg, f, g, ctx1, ctx2, w1, w2, now);
    hide TwoFlags, Evaluate, RulesFree;
  }

  // ---- An answer that flips ----

  /**
   * Save, edit the flag, let one read fail: the answer flips, and the flipped
   * answer is the one that is stored from then on.
   */
  lemma AnswerFlips(
    cfg: Config, f: FlagDefinition, g: FlagDefinition, ctx: EvaluationContext, w1: World, w2: World, now: int)
    requires cfg.persistent && RulesFree(f) && RulesFree(g)
    requires f.key == g.key && f.defaultResult != g.defaultResult
    requires w1.flagOk && w1.saved && w2.flagOk && !w2.readOk && w2.saved
    ensures var db0 := Step(map[], CreateFlag(ctx.tenantId, f), now).0;
            var (db1, r1) := Evaluate(cfg, db0, f.key, ctx, w1);
            var db2 := Step(db1, UpdateFlag(ctx.tenantId, g), now).0;
            var (db3, r2) := Evaluate(cfg, db2, f.key, ctx, w2);
            var key := AssignmentKey(ctx.tenantId, ctx.subjectId, f.key);
            && OutcomeOf(r1) == f.defaultResult && OutcomeOf(r2) == g.defaultResult
            && Pinned(db1, key, f.defaultResult) && Pinned(db2, key, f.defaultResult)
            && Pinned(db3, key, g.defaultResult)
  {
    var t, key := ctx.tenantId, AssignmentKey(ctx.tenantId, ctx.subjectId, f.key);
    var db0 := Step(map[], CreateFlag(t, f), now).0;
    CreationStores(map[], t, f, now);
    CreationLeavesOthers(map[], t, f, now, ctx.subjectId, f.key);
    assert Holds(db0, t, f);
    hide Step, Holds, Evaluate, Pinned, AssignmentKey, RulesFree, FindsPersistent;
    FirstAnswer(cfg, db0, f, ctx, w1, f);
    var db1 := Evaluate(cfg, db0, f.key, ctx, w1).0;
    var db2 := Step(db1, UpdateFlag(t, g), now).0;
    FlagApartFromAssignment(t, g.key, ctx.subjectId, f.key);
    CallKeepsExactlyWhen(db1, UpdateFlag(t, g), now, key, f.defaultResult);
    UpdateStores(db1, t, f, g, now);
    DefaultIsSaid(cfg, db2, g, ctx, w2);
    FailedReadOverwrites(cfg, db2, g.key, ctx, w2);
    ComputedIsPinned(cfg, db2, g.key, ctx, w2);
    hide UsedKey, FoundFlag, Render;
  }
}
