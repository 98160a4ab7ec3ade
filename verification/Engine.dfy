/** The engine object: methods that evaluate flags and write assignments to the store. */
module Engine {
  import opened Records
  import opened F = FlatStore
  import opened Rules
  import opened Evaluation
  import RedisStore

  class Engine {
    const cfg: Config
    const store: RedisStore.Store

    constructor (cfg: Config, store: RedisStore.Store)
      ensures this.cfg == cfg && this.store == store
    {
      this.cfg := cfg;
      this.store := store;
    }

    /** Rules from top to bottom; the first match wins. */
    method ScanRules(flag: FlagDefinition, ctx: EvaluationContext, draws: Draws) returns (result: EvaluationResult)
      ensures result == EvaluateRules(cfg.lib, flag, ctx, draws)
    {
      hide AllConditionsMatch, SubjectInRollout;
      for i := 0 to |flag.rules|
        invariant FirstFiring(cfg.lib, flag, ctx, draws, 0) == FirstFiring(cfg.lib, flag, ctx, draws, i)
      {
        var rule := flag.rules[i];
        if !AllConditionsMatch(cfg.lib, rule.conditions, ctx) {
          continue;
        }
        if SubjectInRollout(cfg.lib, flag, ctx, rule.rolloutPercentage, draws(i)) {
          return EvaluationResult(ctx.tenantId, flag.key, true, rule.variant, RuleMatch);
        }
      }
      return EvaluationResult(ctx.tenantId, flag.key, flag.defaultResult.enabled, flag.defaultResult.variant, Default);
    }

    method EvaluatePersistentFlag(flag: FlagDefinition, ctx: EvaluationContext, w: World)
      returns (result: EvaluationResult)
      modifies store
      ensures (store.db, result) == EvaluatePersistent(cfg, old(store.db), flag, ctx, w)
    {
      hide EvaluateRules, DoGetAssignment, DoSaveAssignment;
      if !cfg.persistent {
        result := ScanRules(flag, ctx, w.draws);
        result := result.(reason := NoPersistence);
        return;
      }
      var existing := store.GetAssignment(ctx.tenantId, ctx.subjectId, flag.key, w.now);
      if w.readOk && existing.AssignmentIs? && existing.assignment.Some? {
        var a := existing.assignment.value;
        return EvaluationResult(ctx.tenantId, flag.key, a.enabled, a.variant, Persisted);
      }
      result := ScanRules(flag, ctx, w.draws);
      AnswersOwnKey(cfg.lib, flag, ctx, w.draws);
      if w.saved {
        var _ := store.SaveAssignment(ctx.tenantId,
          Assignment(ctx.subjectId, flag.key, result.enabled, result.variant, Unix(w.now), 0), w.now);
      }
    }

    method EvaluateFlag(key: string, ctx: EvaluationContext, w: World) returns (result: EvaluationResult)
      modifies store
      ensures (store.db, result) == Evaluate(cfg, old(store.db), key, ctx, w)
    {
      hide EvaluateRules, EvaluatePersistent, DoGetFlag;
      var got := store.GetFlag(ctx.tenantId, key, w.now);
      if !w.flagOk || !got.FlagIs? {
        return EvaluationResult(ctx.tenantId, key, false, "", Error);
      }
      if got.flag.None? {
        return EvaluationResult(ctx.tenantId, key, false, "", Rules.NotFound);
      }
      var flag := got.flag.value;
      if !flag.enabled {
        return EvaluationResult(ctx.tenantId, key, false, "", Disabled);
      }
      if flag.semantics == SEMANTICS_PERSISTENT {
        result := EvaluatePersistentFlag(flag, ctx, w);
        return;
      }
      result := ScanRules(flag, ctx, w.draws);
    }

    method EvaluateBatch(items: seq<Item>, ctx: EvaluationContext) returns (results: array<EvaluationResult>)
      modifies store
      ensures fresh(results)
      ensures results[..] == BatchResults(cfg, old(store.db), items, ctx)
      ensures store.db == BatchDb(cfg, old(store.db), items, ctx)
    {
      hide Evaluate;
      results := new EvaluationResult[|items|](_ => Plainly(ctx, "", Error));
      for i := 0 to |items|
        invariant results[..i] + BatchResults(cfg, store.db, items[i..], ctx) ==
                  BatchResults(cfg, old(store.db), items, ctx)
        invariant BatchDb(cfg, store.db, items[i..], ctx) == BatchDb(cfg, old(store.db), items, ctx)
      {
        assert items[i..][0] == items[i] && items[i..][1..] == items[i + 1..];
        var r := EvaluateFlag(items[i].key, ctx, items[i].world);
        results[i] := r;
        assert results[..i + 1] == results[..i] + [r];
      }
      assert results[..|items|] == results[..];
    }
  }
}
