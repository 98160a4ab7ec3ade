/** What an evaluation answers and why, by what it finds; and what written flags answer over runs. */
module Answers {
  import opened Options
  import opened Records
  import opened F = FlatStore
  import opened Rules
  import opened Evaluation
  import opened Stickiness
  import opened ReadYourWrites
  import opened Conditions

  // ---- Reasons ----

  /**
   * Error, NotFound and Disabled are the answers exactly if the flag cannot be fetched,
   * if there is none, and if it is off; all three are off, without a variant, and write nothing.
   */
  lemma PlainAnswers(cfg: Config, db: Db, k: string, ctx: EvaluationContext, w: World)
    ensures var (db', r) := Evaluate(cfg, db, k, ctx, w);
            var got := DoGetFlag(db, w.now, ctx.tenantId, k);
            && (r.reason == Error <==> !w.flagOk || got.Failed?)
            && (r.reason == Rules.NotFound <==> w.flagOk && got == FlagIs(None))
            && (r.reason == Disabled <==> w.flagOk && got.FlagIs? && got.flag.Some? && !got.flag.value.enabled)
            && (r.reason == Error || r.reason == Rules.NotFound || r.reason == Disabled ==>
                  db' == db && r.tenantId == ctx.tenantId && r.flagKey == k && !r.enabled && r.variant == "")
  {
    hide FirstFiring, GetFlagDoc, DoGetAssignment, DoSaveAssignment;
  }

  /** The flag is fetched, and it is on. */
  predicate FindsOn(db: Db, k: string, ctx: EvaluationContext, w: World, f: FlagDefinition) {
    w.flagOk && f.enabled && DoGetFlag(db, w.now, ctx.tenantId, k) == FlagIs(Some(f))
  }

  /** The stored assignment is read for the flag. */
  predicate ReadsStored(cfg: Config, db: Db, ctx: EvaluationContext, w: World, f: FlagDefinition, a: Assignment) {
    && cfg.persistent && f.semantics == "persistent" && w.readOk
    && DoGetAssignment(db, w.now, ctx.tenantId, ctx.subjectId, f.key) == AssignmentIs(Some(a))
  }

  /** Rule i is the first that fires, and that is what is answered. */
  predicate RuleAnswers(
    cfg: Config, ctx: EvaluationContext, w: World, f: FlagDefinition, r: EvaluationResult, i: nat)
  {
    && i < |f.rules| && Fires(cfg.lib, f, ctx, w.draws, i)
    && (forall j :: 0 <= j < i ==> !Fires(cfg.lib, f, ctx, w.draws, j))
    && r.enabled && r.variant == f.rules[i].variant
  }

  predicate DefaultAnswers(cfg: Config, ctx: EvaluationContext, w: World, f: FlagDefinition, r: EvaluationResult) {
    && (forall i :: 0 <= i < |f.rules| ==> !Fires(cfg.lib, f, ctx, w.draws, i))
    && r.enabled == f.defaultResult.enabled && r.variant == f.defaultResult.variant
  }

  lemma RulesAnswer(cfg: Config, ctx: EvaluationContext, w: World, f: FlagDefinition)
    ensures var r := EvaluateRules(cfg.lib, f, ctx, w.draws);
            && r.tenantId == ctx.tenantId && r.flagKey == f.key
            && match r.reason
               case RuleMatch => exists i: nat :: RuleAnswers(cfg, ctx, w, f, r, i)
               case Default => DefaultAnswers(cfg, ctx, w, f, r)
               case _ => false
  {
    hide Fires;
    var r, k := EvaluateRules(cfg.lib, f, ctx, w.draws), FirstFiring(cfg.lib, f, ctx, w.draws, 0);
    if k < |f.rules| {
      assert RuleAnswers(cfg, ctx, w, f, r, k);
    }
  }

  /**
   * A flag that is on answers the stored assignment that is read for it, else its first
   * rule that fires, else its default; Persisted and NoPersistence are the reasons exactly
   * if there is such an assignment, and if there is no store to persist in.
   */
  lemma OnAnswers(cfg: Config, db: Db, k: string, ctx: EvaluationContext, w: World, f: FlagDefinition)
    requires FindsOn(db, k, ctx, w, f)
    ensures var (db', r) := Evaluate(cfg, db, k, ctx, w);
            && r.tenantId == ctx.tenantId && r.flagKey == f.key
            && (r.reason == Persisted <==> exists a: Assignment :: ReadsStored(cfg, db, ctx, w, f, a))
            && (r.reason == NoPersistence <==> f.semantics == "persistent" && !cfg.persistent)
            && match r.reason
               case Persisted =>
                 && db' == db
                 && exists a: Assignment ::
                      ReadsStored(cfg, db, ctx, w, f, a) && r.enabled == a.enabled && r.variant == a.variant
               case RuleMatch => exists i: nat :: RuleAnswers(cfg, ctx, w, f, r, i)
               case Default => DefaultAnswers(cfg, ctx, w, f, r)
               case NoPersistence =>
                 DefaultAnswers(cfg, ctx, w, f, r) || exists i: nat :: RuleAnswers(cfg, ctx, w, f, r, i)
               case _ => false
  {
    RulesAnswer(cfg, ctx, w, f);
    hide EvaluateRules, RuleAnswers, DefaultAnswers, DoGetFlag, DoGetAssignment, DoSaveAssignment;
    var rules, r := EvaluateRules(cfg.lib, f, ctx, w.draws), Evaluate(cfg, db, k, ctx, w).1;
    if f.semantics == "persistent" {
      if !cfg.persistent {
        OtherReason(cfg, ctx, w, f, rules, r);
      } else if ReadAssignment(db, ctx, f.key, w).Some? {
        assert ReadsStored(cfg, db, ctx, w, f, ReadAssignment(db, ctx, f.key, w).value);
      }
    }
  }

  /** The reason of an answer is not looked at. */
  lemma OtherReason(
    cfg: Config, ctx: EvaluationContext, w: World, f: FlagDefinition, r: EvaluationResult, q: EvaluationResult)
    requires q == r.(reason := q.reason)
    ensures DefaultAnswers(cfg, ctx, w, f, r) ==> DefaultAnswers(cfg, ctx, w, f, q)
    ensures (exists i: nat :: RuleAnswers(cfg, ctx, w, f, r, i)) ==> exists i: nat :: RuleAnswers(cfg, ctx, w, f, q, i)
  {
    hide Fires;
    if i: nat :| RuleAnswers(cfg, ctx, w, f, r, i) {
      assert RuleAnswers(cfg, ctx, w, f, q, i);
    }
  }

  /** A rule of the flag fires. */
  predicate SomeFires(cfg: Config, ctx: EvaluationContext, w: World, f: FlagDefinition) {
    exists i :: 0 <= i < |f.rules| && Fires(cfg.lib, f, ctx, w.draws, i)
  }

  /**
   * An evaluation answers enabled if and only if the flag was fetched and is on, and the
   * stored assignment that is read for it is on or, without one, a rule fires or the default is on.
   */
  lemma EnabledExactlyWhen(cfg: Config, db: Db, k: string, ctx: EvaluationContext, w: World)
    ensures Evaluate(cfg, db, k, ctx, w).1.enabled <==>
            exists f: FlagDefinition ::
              && FindsOn(db, k, ctx, w, f)
              && if exists a: Assignment :: ReadsStored(cfg, db, ctx, w, f, a)
                 then exists a: Assignment :: ReadsStored(cfg, db, ctx, w, f, a) && a.enabled
                 else SomeFires(cfg, ctx, w, f) || f.defaultResult.enabled
  {
    PlainAnswers(cfg, db, k, ctx, w);
    hide Fires, DoGetAssignment;
    var got := DoGetFlag(db, w.now, ctx.tenantId, k);
    if w.flagOk && got.FlagIs? && got.flag.Some? && got.flag.value.enabled {
      var f := got.flag.value;
      assert FindsOn(db, k, ctx, w, f);
      OnAnswers(cfg, db, k, ctx, w, f);
    }
    hide DoGetFlag, Evaluate;
  }

  // ---- Flags that are written and then evaluated ----

  /** A flag in the store that is off is answered as disabled, and nothing is saved. */
  lemma StoredOffAnswers(
    cfg: Config, db: Db, g: FlagDefinition, created: int, updated: int, ctx: EvaluationContext, w: World)
    requires FlagStored(db, ctx.tenantId, g, created, updated) && !g.enabled
    ensures Evaluate(cfg, db, g.key, ctx, w) ==
            (db, EvaluationResult(ctx.tenantId, g.key, false, "", if w.flagOk then Disabled else Error))
  {
    StoredFlagIsRead(db, ctx.tenantId, g, created, updated, w.now);
    PlainAnswers(cfg, db, g.key, ctx, w);
    hide DoGetFlag, Evaluate, FlagStored;
  }

  /** From its creation on, a flag that is created off is answered as disabled, until it is written again. */
  lemma CreatedOffAnswers(
    cfg: Config, db: Db, f: FlagDefinition, created: int, later: seq<Event>, ctx: EvaluationContext, w: World)
    requires !f.enabled
    requires NoneWrites(
               cfg, Step(db, CreateFlag(ctx.tenantId, f), created).0, later, ctx.tenantId + ":flags:" + f.key)
    ensures var db1 := AfterAll(cfg, Step(db, CreateFlag(ctx.tenantId, f), created).0, later);
            Evaluate(cfg, db1, f.key, ctx, w) ==
            (db1, EvaluationResult(ctx.tenantId, f.key, false, "", if w.flagOk then Disabled else Error))
  {
    hide Step, NoneWrites, Evaluate, IsFlag;
    CreateStores(db, ctx.tenantId, f, created);
    var db0 := Step(db, CreateFlag(ctx.tenantId, f), created).0;
    RunLeaves(cfg, db0, later, ctx.tenantId + ":flags:" + f.key);
    StoredOffAnswers(cfg, AfterAll(cfg, db0, later), f, created, created, ctx, w);
  }

  /**
   * From an update that switches a flag off until its record is written again, every
   * evaluation of it answers disabled and saves nothing, whatever was stored before.
   */
  lemma SwitchedOffAnswers(
    cfg: Config, db: Db, g: FlagDefinition, updated: int, later: seq<Event>, ctx: EvaluationContext, w: World)
    requires !g.enabled && Step(db, UpdateFlag(ctx.tenantId, g), updated).1.FlagIs?
    requires NoneWrites(
               cfg, Step(db, UpdateFlag(ctx.tenantId, g), updated).0, later, ctx.tenantId + ":flags:" + g.key)
    ensures var db1 := AfterAll(cfg, Step(db, UpdateFlag(ctx.tenantId, g), updated).0, later);
            Evaluate(cfg, db1, g.key, ctx, w) ==
            (db1, EvaluationResult(ctx.tenantId, g.key, false, "", if w.flagOk then Disabled else Error))
  {
    hide Step, NoneWrites, Evaluate, IsFlag;
    var created := UpdateLeavesStored(db, ctx.tenantId, g, updated);
    var db0 := Step(db, UpdateFlag(ctx.tenantId, g), updated).0;
    RunLeaves(cfg, db0, later, ctx.tenantId + ":flags:" + g.key);
    StoredOffAnswers(cfg, AfterAll(cfg, db0, later), g, created, updated, ctx, w);
  }

  /** From its deletion until its record is written again, a flag is answered as not found. */
  lemma DeletedAnswers(
    cfg: Config, db: Db, k: string, deleted: int, later: seq<Event>, ctx: EvaluationContext, w: World)
    requires NoneWrites(cfg, Step(db, DeleteFlag(ctx.tenantId, k), deleted).0, later, ctx.tenantId + ":flags:" + k)
    ensures var db1 := AfterAll(cfg, Step(db, DeleteFlag(ctx.tenantId, k), deleted).0, later);
            Evaluate(cfg, db1, k, ctx, w) ==
            (db1, EvaluationResult(ctx.tenantId, k, false, "", if w.flagOk then Rules.NotFound else Error))
  {
    DeletedFlagIsGone(cfg, db, ctx.tenantId, k, deleted, later, w.now);
    var db1 := AfterAll(cfg, Step(db, DeleteFlag(ctx.tenantId, k), deleted).0, later);
    assert Step(db1, GetFlag(ctx.tenantId, k), w.now).1 == DoGetFlag(db1, w.now, ctx.tenantId, k);
    hide Step, NoneWrites, Evaluate, DoGetFlag;
    PlainAnswers(cfg, db1, k, ctx, w);
  }

  /**
   * From creation to answer: a flag that is on, is not persistent, and has one rule for
   * environment v and all subjects, answers the variant of the rule in that environment
   * and its default in all others, until its record is written again.
   */
  lemma CreatedFlagAnswersByEnvironment(
    cfg: Config, db: Db, f: FlagDefinition, v: string, variant: string, created: int, later: seq<Event>,
    ctx: EvaluationContext, w: World)
    requires f.enabled && f.semantics != "persistent" && f.rules == [EnvironmentRule(v, variant)] && v != ""
    requires w.flagOk
    requires NoneWrites(
               cfg, Step(db, CreateFlag(ctx.tenantId, f), created).0, later, ctx.tenantId + ":flags:" + f.key)
    ensures var db1 := AfterAll(cfg, Step(db, CreateFlag(ctx.tenantId, f), created).0, later);
            Evaluate(cfg, db1, f.key, ctx, w) ==
            (db1, if ctx.environment == v then EvaluationResult(ctx.tenantId, f.key, true, variant, RuleMatch)
                  else EvaluationResult(
                    ctx.tenantId, f.key, f.defaultResult.enabled, f.defaultResult.variant, Default))
  {
    CreatedFlagIsRead(cfg, db, ctx.tenantId, f, created, later, w.now);
    var db1 := AfterAll(cfg, Step(db, CreateFlag(ctx.tenantId, f), created).0, later);
    assert Step(db1, GetFlag(ctx.tenantId, f.key), w.now).1 == DoGetFlag(db1, w.now, ctx.tenantId, f.key);
    var g := DoGetFlag(db1, w.now, ctx.tenantId, f.key).flag.value;
    assert SameFlag(g, f);
    hide Step, NoneWrites, DoGetFlag, EvaluateRules, EnvironmentRule;
    EnvironmentRuleDecides(cfg.lib, g, ctx, w.draws, v, variant);
    RulesAnswer(cfg, ctx, w, g);
  }
}
