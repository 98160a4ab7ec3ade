/** Evaluation of one flag against the stored definitions and assignments. */
module Evaluation {
  import opened Options
  import opened Records
  import opened F = FlatStore
  import opened Rules

  /**
   * What the outside world contributes to one evaluation: the clock, whether the
   * calls to the store come back, whether the save takes effect, and the draws.
   */
  datatype World = World(now: int, flagOk: bool, readOk: bool, saved: bool, draws: Draws)

  /** The engine's configuration: libraries, and whether there is an assignment store at all. */
  datatype Config = Config(lib: Library, persistent: bool)

  function Plainly(ctx: EvaluationContext, key: string, reason: Reason): EvaluationResult {
    EvaluationResult(ctx.tenantId, key, false, "", reason)
  }

  /** The assignment that the engine saves; it never sets an expiry. */
  function NewAssignment(ctx: EvaluationContext, result: EvaluationResult, now: int): Assignment {
    Assignment(ctx.subjectId, result.flagKey, result.enabled, result.variant, Unix(now), 0)
  }

  /** GetAssignment as the engine sees it: a failed call is as good as no assignment. */
  function ReadAssignment(db: Db, ctx: EvaluationContext, key: string, w: World): Option<Assignment> {
    var r := DoGetAssignment(db, w.now, ctx.tenantId, ctx.subjectId, key);
    if w.readOk && r.AssignmentIs? then r.assignment else None
  }

  function EvaluatePersistent(
    cfg: Config, db: Db, flag: FlagDefinition, ctx: EvaluationContext, w: World): (Db, EvaluationResult)
  {
    if !cfg.persistent then
      (db, EvaluateRules(cfg.lib, flag, ctx, w.draws).(reason := NoPersistence))
    else
      match ReadAssignment(db, ctx, flag.key, w)
      case Some(a) => (db, EvaluationResult(ctx.tenantId, flag.key, a.enabled, a.variant, Persisted))
      case None =>
        var result := EvaluateRules(cfg.lib, flag, ctx, w.draws);
        var a := NewAssignment(ctx, result, w.now);
        var db' := if w.saved then DoSaveAssignment(db, w.now, ctx.tenantId, a).0 else db;
        (db', result)
  }

  function Evaluate(cfg: Config, db: Db, key: string, ctx: EvaluationContext, w: World): (Db, EvaluationResult) {
    var got := DoGetFlag(db, w.now, ctx.tenantId, key);
    if !w.flagOk || !got.FlagIs? then (db, Plainly(ctx, key, Error))
    else if got.flag.None? then (db, Plainly(ctx, key, Rules.NotFound))
    else
      var flag := got.flag.value;
      if !flag.enabled then (db, Plainly(ctx, key, Disabled))
      else if flag.semantics == SEMANTICS_PERSISTENT then EvaluatePersistent(cfg, db, flag, ctx, w)
      else (db, EvaluateRules(cfg.lib, flag, ctx, w.draws))
  }

  /** One evaluation of a batch: the key and what happens outside. */
  datatype Item = Item(key: string, world: World)

  function BatchDb(cfg: Config, db: Db, items: seq<Item>, ctx: EvaluationContext): Db
    decreases |items|
  {
    if items == [] then db
    else BatchDb(cfg, Evaluate(cfg, db, items[0].key, ctx, items[0].world).0, items[1..], ctx)
  }

  function BatchResults(cfg: Config, db: Db, items: seq<Item>, ctx: EvaluationContext): (rs: seq<EvaluationResult>)
    ensures |rs| == |items|
    decreases |items|
  {
    if items == [] then []
    else
      var (next, r) := Evaluate(cfg, db, items[0].key, ctx, items[0].world);
      [r] + BatchResults(cfg, next, items[1..], ctx)
  }
}
