/** Concurrent evaluations of one persistent flag, interleaved at the granularity of store calls. */
module Interleaving {
  import opened Options
  import opened Records
  import opened Keys
  import opened KeyConflicts
  import opened SubjectKeys
  import opened F = FlatStore
  import opened T = TenantStore
  import opened Refinement
  import opened Rules
  import opened Evaluation
  import opened Stickiness

  /** How far one evaluation has come. */
  datatype Phase =
    | Idle
    | HasFlag(flag: FlagDefinition)
    | NoAssignment(flag: FlagDefinition)
    | Computed(result: EvaluationResult)
    | Returned(result: EvaluationResult)

  datatype System = System(db: Db, procs: seq<Phase>)

  /** One step of evaluation i, with what the world contributes to it, or an RPC of somebody else. */
  datatype Action =
    | Fetch(i: nat, world: World)
    | Read(i: nat, world: World)
    | Compute(i: nat, world: World)
    | Save(i: nat, world: World)
    | Foreign(call: Call)

  /** What all the evaluations have in common. */
  datatype Request = Request(key: string, ctx: EvaluationContext)

  function AfterFetch(cfg: Config, db: Db, rq: Request, w: World): Phase {
    var got := DoGetFlag(db, w.now, rq.ctx.tenantId, rq.key);
    if !w.flagOk || !got.FlagIs? then Returned(Plainly(rq.ctx, rq.key, Error))
    else if got.flag.None? then Returned(Plainly(rq.ctx, rq.key, Rules.NotFound))
    else if !got.flag.value.enabled then Returned(Plainly(rq.ctx, rq.key, Disabled))
    else if got.flag.value.semantics != SEMANTICS_PERSISTENT then
      Returned(EvaluateRules(cfg.lib, got.flag.value, rq.ctx, w.draws))
    else if !cfg.persistent then
      Returned(EvaluateRules(cfg.lib, got.flag.value, rq.ctx, w.draws).(reason := NoPersistence))
    else HasFlag(got.flag.value)
  }

  function AfterRead(db: Db, rq: Request, flag: FlagDefinition, w: World): Phase {
    match ReadAssignment(db, rq.ctx, flag.key, w)
    case Some(a) => Returned(EvaluationResult(rq.ctx.tenantId, flag.key, a.enabled, a.variant, Persisted))
    case None => NoAssignment(flag)
  }

  /** An action whose evaluation is not at that step does nothing. */
  ghost function Act(cfg: Config, rq: Request, s: System, a: Action): (s': System)
    ensures |s'.procs| == |s.procs|
  {
    match a
    case Foreign(call) => s.(db := Step(s.db, call.op, call.now).0)
    case Fetch(i, w) =>
      if i < |s.procs| && s.procs[i].Idle? then s.(procs := s.procs[i := AfterFetch(cfg, s.db, rq, w)]) else s
    case Read(i, w) =>
      if i < |s.procs| && s.procs[i].HasFlag? then
        s.(procs := s.procs[i := AfterRead(s.db, rq, s.procs[i].flag, w)])
      else s
    case Compute(i, w) =>
      if i < |s.procs| && s.procs[i].NoAssignment? then
        s.(procs := s.procs[i := Computed(EvaluateRules(cfg.lib, s.procs[i].flag, rq.ctx, w.draws))])
      else s
    case Save(i, w) =>
      if i < |s.procs| && s.procs[i].Computed? then
        var r := s.procs[i].result;
        System(
          if w.saved then DoSaveAssignment(s.db, w.now, rq.ctx.tenantId, NewAssignment(rq.ctx, r, w.now)).0 else s.db,
          s.procs[i := Returned(r)])
      else s
  }

  ghost function Schedule(cfg: Config, rq: Request, s: System, actions: seq<Action>): (s': System)
    ensures |s'.procs| == |s.procs|
    decreases |actions|
  {
    if actions == [] then s else Schedule(cfg, rq, Act(cfg, rq, s, actions[0]), actions[1..])
  }

  /** The steps of one evaluation, taken without interruption, are a sequential evaluation. */
  lemma AloneIsSequential(cfg: Config, rq: Request, db: Db, w: World)
    ensures var s := Schedule(cfg, rq, System(db, [Idle]), [Fetch(0, w), Read(0, w), Compute(0, w), Save(0, w)]);
            var (db', r) := Evaluate(cfg, db, rq.key, rq.ctx, w);
            s == System(db', [Returned(r)])
  {
    hide DoGetFlag, DoGetAssignment, DoSaveAssignment, EvaluateRules;
    var s0 := System(db, [Idle]);
    var s1 := Act(cfg, rq, s0, Fetch(0, w));
    var s2 := Act(cfg, rq, s1, Read(0, w));
    var s3 := Act(cfg, rq, s2, Compute(0, w));
    var s4 := Act(cfg, rq, s3, Save(0, w));
    var all := [Fetch(0, w), Read(0, w), Compute(0, w), Save(0, w)];
    assert all[1..] == [Read(0, w), Compute(0, w), Save(0, w)];
    assert all[1..][1..] == [Compute(0, w), Save(0, w)];
    assert all[1..][1..][1..] == [Save(0, w)];
    assert all[1..][1..][1..][1..] == [];
    assert Schedule(cfg, rq, s0, all) == Schedule(cfg, rq, s1, all[1..]) == Schedule(cfg, rq, s2, all[1..][1..])
           == Schedule(cfg, rq, s3, all[1..][1..][1..]) == Schedule(cfg, rq, s4, []) == s4;
    assert |s4.procs| == 1;
  }

  // ---- Agreement ----

  /** Where the flag is read, and where the evaluations read and save their answer. */
  function FlagKey(rq: Request): string {
    Render(FlagPath(rq.ctx.tenantId, rq.key))
  }

  function AnswerKey(rq: Request, flag: FlagDefinition): string {
    AssignmentKey(rq.ctx.tenantId, rq.ctx.subjectId, flag.key)
  }

  /** What the rules say, and so what every evaluation has to answer. */
  function Decision(cfg: Config, flag: FlagDefinition, rq: Request): EvalResult {
    var r := EvaluateRules(cfg.lib, flag, rq.ctx, _ => 0);
    EvalResult(r.enabled, r.variant)
  }

  /** Others write neither of the two keys. */
  ghost predicate LeavesAlone(a: Action, rq: Request, flag: FlagDefinition) {
    a.Foreign? ==> forall q: Path :: Touches(a.call.op, q) ==>
      Render(q) != FlagKey(rq) && Render(q) != AnswerKey(rq, flag)
  }

  predicate Agrees(r: EvaluationResult, d: EvalResult) {
    EvalResult(r.enabled, r.variant) == d
  }

  predicate PhaseAgrees(p: Phase, flag: FlagDefinition, rq: Request, d: EvalResult) {
    match p
    case Idle => true
    case HasFlag(f) => f == flag
    case NoAssignment(f) => f == flag
    case Computed(r) => Agrees(r, d) && r.flagKey == flag.key
    case Returned(r) => r == Plainly(rq.ctx, rq.key, Error) || Agrees(r, d)
  }

  /** The flag that is found, at any time. */
  ghost predicate FlagStays(db: Db, flag: FlagDefinition, rq: Request) {
    forall now :: DoGetFlag(db, now, rq.ctx.tenantId, rq.key) == FlagIs(Some(flag))
  }

  /** Nothing stored yet, or the decision. */
  predicate StoredAgrees(db: Db, rq: Request, flag: FlagDefinition, d: EvalResult) {
    Lookup(db, AnswerKey(rq, flag)) == None || Pinned(db, AnswerKey(rq, flag), d)
  }

  ghost predicate Inv(s: System, flag: FlagDefinition, rq: Request, d: EvalResult) {
    && FlagStays(s.db, flag, rq)
    && StoredAgrees(s.db, rq, flag, d)
    && forall i :: 0 <= i < |s.procs| ==> PhaseAgrees(s.procs[i], flag, rq, d)
  }

  /** The flag is looked up under its own key only. */
  lemma FlagDependsOnKey(db: Db, db': Db, flag: FlagDefinition, rq: Request)
    requires FlagStays(db, flag, rq) && Lookup(db', FlagKey(rq)) == Lookup(db, FlagKey(rq))
    ensures FlagStays(db', flag, rq)
  {
    hide Render;
    forall now
      ensures DoGetFlag(db', now, rq.ctx.tenantId, rq.key) == FlagIs(Some(flag))
    {
      assert DoGetFlag(db, now, rq.ctx.tenantId, rq.key) == FlagIs(Some(flag));
    }
  }

  lemma OthersKeep(db: Db, call: Call, flag: FlagDefinition, rq: Request, d: EvalResult)
    requires LeavesAlone(Foreign(call), rq, flag) && FlagStays(db, flag, rq) && StoredAgrees(db, rq, flag, d)
    ensures var db' := Step(db, call.op, call.now).0;
            FlagStays(db', flag, rq) && StoredAgrees(db', rq, flag, d)
  {
    hide Step, FlagStays, Touches, Render;
    StepLeaves(db, call.op, call.now, FlagKey(rq));
    StepLeaves(db, call.op, call.now, AnswerKey(rq, flag));
    FlagDependsOnKey(db, Step(db, call.op, call.now).0, flag, rq);
  }

  /** A read finds nothing or the decision, whether or not it fails. */
  lemma ReadAgrees(db: Db, rq: Request, flag: FlagDefinition, w: World, d: EvalResult)
    requires StoredAgrees(db, rq, flag, d)
    ensures PhaseAgrees(AfterRead(db, rq, flag, w), flag, rq, d)
  {
    if Pinned(db, AnswerKey(rq, flag), d) {
      PinnedIsRead(db, rq.ctx.tenantId, rq.ctx.subjectId, flag.key, d, w.now);
    }
    hide Render, Pinned;
  }

  /** A save goes to another key than the flag, whatever the ids. */
  lemma SaveAgrees(db: Db, flag: FlagDefinition, rq: Request, r: EvaluationResult, w: World, d: EvalResult)
    requires Agrees(r, d) && r.flagKey == flag.key && FlagStays(db, flag, rq)
    ensures var db' := DoSaveAssignment(db, w.now, rq.ctx.tenantId, NewAssignment(rq.ctx, r, w.now)).0;
            FlagStays(db', flag, rq) && Pinned(db', AnswerKey(rq, flag), d)
  {
    var a := NewAssignment(rq.ctx, r, w.now);
    SaveHere(db, rq.ctx.tenantId, a, w.now);
    if FlagKey(rq) == AnswerKey(rq, flag) {
      FamiliesApart(FlagPath(rq.ctx.tenantId, rq.key), AssignmentPath(rq.ctx.tenantId, rq.ctx.subjectId, flag.key));
    }
    hide FlagStays, Pinned, Render;
    FlagDependsOnKey(db, DoSaveAssignment(db, w.now, rq.ctx.tenantId, a).0, flag, rq);
  }

  /** The flag that all the evaluations are about. */
  predicate Persistent(flag: FlagDefinition) {
    flag.enabled && flag.semantics == SEMANTICS_PERSISTENT
  }

  lemma ActKeepsInv(cfg: Config, rq: Request, s: System, a: Action, flag: FlagDefinition)
    requires cfg.persistent && Persistent(flag) && LeavesAlone(a, rq, flag)
    requires Inv(s, flag, rq, Decision(cfg, flag, rq))
    ensures Inv(Act(cfg, rq, s, a), flag, rq, Decision(cfg, flag, rq))
  {
    var d := Decision(cfg, flag, rq);
    match a
    case Foreign(call) =>
      hide Step, FlagStays, StoredAgrees, PhaseAgrees, LeavesAlone;
      OthersKeep(s.db, call, flag, rq, d);
    case Fetch(i, w) =>
      assert DoGetFlag(s.db, w.now, rq.ctx.tenantId, rq.key) == FlagIs(Some(flag));
      hide DoGetFlag, FlagStays, StoredAgrees, EvaluateRules;
    case Read(i, w) =>
      hide FlagStays, StoredAgrees, AfterRead;
      ReadAgrees(s.db, rq, flag, w, d);
    case Compute(i, w) =>
      DrawsDoNotMatter(cfg.lib, flag, rq.ctx, w.draws, _ => 0);
      AnswersOwnKey(cfg.lib, flag, rq.ctx, w.draws);
      hide FlagStays, StoredAgrees, EvaluateRules;
    case Save(i, w) =>
      if i < |s.procs| && s.procs[i].Computed? {
        SaveAgrees(s.db, flag, rq, s.procs[i].result, w, d);
      }
      hide FlagStays, Pinned, DoSaveAssignment, AnswerKey;
  }

  lemma {:induction false} ScheduleKeepsInv(
    cfg: Config, rq: Request, s: System, actions: seq<Action>, flag: FlagDefinition)
    requires cfg.persistent && Persistent(flag) && forall a <- actions :: LeavesAlone(a, rq, flag)
    requires Inv(s, flag, rq, Decision(cfg, flag, rq))
    ensures Inv(Schedule(cfg, rq, s, actions), flag, rq, Decision(cfg, flag, rq))
    decreases |actions|
  {
    hide Inv, Act, LeavesAlone, Decision;
    if actions != [] {
      ActKeepsInv(cfg, rq, s, actions[0], flag);
      ScheduleKeepsInv(cfg, rq, Act(cfg, rq, s, actions[0]), actions[1..], flag);
    }
  }

  /**
   * Concurrent stickiness: any number of evaluations of one enabled, persistent
   * flag with equal contexts, started with no stored assignment and interleaved
   * in any way with each other and with calls that write neither the flag nor the
   * assignment, all answer what the rules say, even if reads or saves fail. Only
   * an evaluation that could not fetch the flag answers otherwise: an error.
   */
  lemma ConcurrentEvaluationsAgree(cfg: Config, rq: Request, db: Db, n: nat, actions: seq<Action>, flag: FlagDefinition)
    requires cfg.persistent && Persistent(flag) && FlagStays(db, flag, rq)
    requires Lookup(db, AnswerKey(rq, flag)) == None
    requires forall a <- actions :: LeavesAlone(a, rq, flag)
    ensures var s := Schedule(cfg, rq, System(db, seq(n, _ => Idle)), actions);
            && (forall i :: 0 <= i < n && s.procs[i].Returned? && s.procs[i].result.reason != Error ==>
                  Agrees(s.procs[i].result, Decision(cfg, flag, rq)))
            && StoredAgrees(s.db, rq, flag, Decision(cfg, flag, rq))
  {
    var start, d := System(db, seq(n, _ => Idle)), Decision(cfg, flag, rq);
    assert StoredAgrees(db, rq, flag, d);
    hide FlagStays, StoredAgrees, Decision, LeavesAlone;
    ScheduleKeepsInv(cfg, rq, start, actions, flag);
    var s := Schedule(cfg, rq, start, actions);
    assert forall i :: 0 <= i < n ==> PhaseAgrees(s.procs[i], flag, rq, d);
  }
}
