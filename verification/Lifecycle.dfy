/** The experiment lifecycle: start, pause and complete, each a read and a write of the stored record. */
module Lifecycle {
  import opened Options
  import opened Records
  import opened Keys
  import opened KeyConflicts
  import opened OwnRecords
  import opened F = FlatStore
  import opened T = TenantStore
  import opened Refinement
  import RedisStore

  const DRAFT := "draft"
  const RUNNING := "running"
  const PAUSED := "paused"
  const COMPLETED := "completed"

  datatype Transition = Start | Pause | Complete

  function Target(tr: Transition): string {
    match tr
    case Start => RUNNING
    case Pause => PAUSED
    case Complete => COMPLETED
  }

  function AllowedFrom(tr: Transition): seq<string> {
    match tr
    case Start => [DRAFT, PAUSED]
    case Pause => [RUNNING]
    case Complete => [RUNNING, PAUSED]
  }

  predicate IsAllowedTransition(current: string, allowed: seq<string>) {
    exists i :: 0 <= i < |allowed| && current == allowed[i]
  }

  datatype Reply = InternalError | NotFoundReply | Conflict | Updated(experiment: Experiment)

  function HandleTransition(db: Db, t: string, key: string, tr: Transition, now: int): (Db, Reply) {
    var got := DoGetExperiment(db, now, t, key);
    if !got.ExperimentIs? then (db, InternalError)
    else if got.experiment.None? then (db, NotFoundReply)
    else if !IsAllowedTransition(got.experiment.value.status, AllowedFrom(tr)) then (db, Conflict)
    else
      var (db', r) := DoUpdateExperiment(db, now, t, got.experiment.value.(status := Target(tr)));
      (db', if r.ExperimentIs? && r.experiment.Some? then Updated(r.experiment.value) else InternalError)
  }

  method HandleLifecycleTransition(store: RedisStore.Store, t: string, key: string, tr: Transition, now: int)
    returns (reply: Reply)
    modifies store
    ensures (store.db, reply) == HandleTransition(old(store.db), t, key, tr, now)
  {
    hide DoGetExperiment, DoUpdateExperiment;
    var got := store.GetExperiment(t, key, now);
    if !got.ExperimentIs? {
      return InternalError;
    }
    if got.experiment.None? {
      return NotFoundReply;
    }
    var exp := got.experiment.value;
    var allowed := IsAllowedTransition(exp.status, AllowedFrom(tr));
    if !allowed {
      return Conflict;
    }
    exp := exp.(status := Target(tr));
    var updated := store.UpdateExperiment(t, exp, now);
    if !(updated.ExperimentIs? && updated.experiment.Some?) {
      return InternalError;
    }
    reply := Updated(updated.experiment.value);
  }

  /** What POST and PUT make of a request body: it never has a status. */
  function RequestToExperiment(
    key: string, name: string, sticky: bool, variants: seq<Variant>, allocation: seq<Allocation>): Experiment {
    Experiment(key, name, "", sticky, variants, allocation, 0, 0)
  }

  /** The experiment has what the body says, and no status. */
  predicate IsRequested(
    e: Experiment, name: string, sticky: bool, variants: seq<Variant>, allocation: seq<Allocation>)
  {
    && e.status == "" && e.name == name && e.stickyAssignment == sticky
    && e.variants == variants && e.allocation == allocation
  }

  // ---- The stored record ----

  /** The experiment stored under a key, if any. */
  function Stored(db: Db, t: string, key: string): Option<Experiment> {
    match Slot(db, ExperimentPath(t, key))
    case Some(Data(ExperimentDoc(e), _)) => Some(e)
    case _ => None
  }

  /** The store with an experiment under a key. */
  function WithExperiment(db: Db, t: string, key: string, e: Experiment): Db {
    db[Render(ExperimentPath(t, key)) := Data(ExperimentDoc(e), None)]
  }

  lemma StoredIsRead(db: Db, t: string, key: string)
    requires OwnExperiments(db, t) && Stored(db, t, key).Some?
    ensures Stored(db, t, key).value.key == key
    ensures forall now :: DoGetExperiment(db, now, t, key) == ExperimentIs(Stored(db, t, key))
  {
    hide Render;
    assert OwnExperiment(Lookup(db, Render(ExperimentPath(t, key))), key);
  }

  /** Whatever else stands under the key is not read as an experiment with a status. */
  lemma NothingIsRead(db: Db, t: string, key: string, now: int)
    requires Stored(db, t, key).None?
    ensures var got := DoGetExperiment(db, now, t, key);
            && (got.ExperimentIs? && got.experiment.Some? ==> got.experiment.value.status == "")
            && (Slot(db, ExperimentPath(t, key)) == None ==> got == ExperimentIs(None))
  {
    hide Render;
  }

  /** UpdateExperiment replaces one stored record, keeping its creation time, and nothing else. */
  lemma UpdateStores(db: Db, t: string, e: Experiment, now: int)
    requires OwnExperiments(db, t) && Stored(db, t, e.key).Some?
    ensures var e' := StampedExperiment(e, Stored(db, t, e.key).value.createdAt, Unix(now));
            DoUpdateExperiment(db, now, t, e) == (WithExperiment(db, t, e.key, e'), ExperimentIs(Some(e')))
  {
    hide Render;
    assert OwnExperiment(Lookup(db, Render(ExperimentPath(t, e.key))), e.key);
  }

  lemma NoTransitionFromNothing(tr: Transition)
    ensures !IsAllowedTransition("", AllowedFrom(tr))
  {
  }

  /**
   * One transition: an unknown key or a status it is not allowed from leaves the
   * store alone; otherwise the record changes in status and update time only, and
   * nothing else in the store changes.
   */
  lemma TransitionEffect(db: Db, t: string, key: string, tr: Transition, now: int)
    requires OwnExperiments(db, t)
    ensures var (db', reply) := HandleTransition(db, t, key, tr, now);
            match Stored(db, t, key)
            case None =>
              db' == db && !reply.Updated? && (Slot(db, ExperimentPath(t, key)) == None ==> reply == NotFoundReply)
            case Some(e) =>
              if IsAllowedTransition(e.status, AllowedFrom(tr)) then
                var e' := e.(status := Target(tr), updatedAt := Unix(now));
                db' == WithExperiment(db, t, key, e') && reply == Updated(e')
              else db' == db && reply == Conflict
  {
    NoTransitionFromNothing(tr);
    var s := Stored(db, t, key);
    if s.None? {
      NothingIsRead(db, t, key, now);
    } else {
      StoredIsRead(db, t, key);
      assert DoGetExperiment(db, now, t, key) == ExperimentIs(s);
      UpdateStores(db, t, s.value.(status := Target(tr)), now);
    }
    hide OwnExperiments, Stored, WithExperiment, DoGetExperiment, DoUpdateExperiment, IsAllowedTransition, Slot;
  }

  /** The moves of the lifecycle: who may go where. */
  predicate Moves(tr: Transition, before: string, after: string) {
    match tr
    case Start => (before == "draft" || before == "paused") && after == "running"
    case Pause => before == "running" && after == "paused"
    case Complete => (before == "running" || before == "paused") && after == "completed"
  }

  lemma AllowedMoves(tr: Transition, status: string)
    ensures IsAllowedTransition(status, AllowedFrom(tr)) <==> Moves(tr, status, Target(tr))
    ensures forall after: string :: Moves(tr, status, after) ==> after == Target(tr)
  {
    var from := AllowedFrom(tr);
    assert from[0] == if tr.Start? then "draft" else "running";
    assert !tr.Pause? ==> from[1] == "paused";
  }

  /**
   * The transition table: a request is granted if and only if the stored status has such a
   * move, and then the record, as stored and as answered, has the new status and the time
   * of the request, and is otherwise what it was; any other request is a conflict.
   */
  lemma TransitionTable(db: Db, t: string, key: string, tr: Transition, now: int)
    requires OwnExperiments(db, t) && Stored(db, t, key).Some?
    ensures var (db', reply), e := HandleTransition(db, t, key, tr, now), Stored(db, t, key).value;
            if reply.Updated? then
              var e' := reply.experiment;
              && Stored(db', t, key) == Some(e') && Moves(tr, e.status, e'.status)
              && e'.key == e.key && e'.name == e.name && e'.stickyAssignment == e.stickyAssignment
              && e'.variants == e.variants && e'.allocation == e.allocation
              && e'.createdAt == e.createdAt && 1000 * e'.updatedAt <= now < 1000 * (e'.updatedAt + 1)
            else db' == db && reply == Conflict && forall after: string :: !Moves(tr, e.status, after)
  {
    TransitionEffect(db, t, key, tr, now);
    AllowedMoves(tr, Stored(db, t, key).value.status);
    hide OwnExperiments, HandleTransition, Render, IsAllowedTransition, Moves;
  }

  /** An experiment that cannot be read is an internal error, and one that is not there is not found. */
  lemma UnreadIsReported(db: Db, t: string, key: string, tr: Transition, now: int)
    ensures match Step(db, GetExperiment(t, key), now).1
            case Failed(_) => HandleTransition(db, t, key, tr, now) == (db, InternalError)
            case ExperimentIs(None) => HandleTransition(db, t, key, tr, now) == (db, NotFoundReply)
            case r => r.ExperimentIs?
  {
    hide Render;
  }

  /** Whatever a handler finds, it does nothing to the store but an UpdateExperiment of its tenant. */
  lemma TransitionIsUpdate(db: Db, t: string, key: string, tr: Transition, now: int)
    ensures var db' := HandleTransition(db, t, key, tr, now).0;
            db' == db || exists e: Experiment :: db' == Step(db, UpdateExperiment(t, e), now).0
  {
    hide DoGetExperiment, DoUpdateExperiment, IsAllowedTransition;
    var got := DoGetExperiment(db, now, t, key);
    if got.ExperimentIs? && got.experiment.Some? {
      var e := got.experiment.value.(status := Target(tr));
      assert Step(db, UpdateExperiment(t, e), now).0 == DoUpdateExperiment(db, now, t, e).0;
    }
  }

  /** An update by a tenant separate from t changes no experiment of t. */
  lemma UpdateOfOthers(db: Db, u: string, e: Experiment, now: int, t: string, key: string)
    requires Separate(u, t, EXPERIMENTS) && (u, e.key) != (t, key)
    ensures Slot(Step(db, UpdateExperiment(u, e), now).0, ExperimentPath(t, key)) == Slot(db, ExperimentPath(t, key))
  {
    ApartFrom(u, e.key, t, key);
    hide Render, Step;
    StepLeaves(db, UpdateExperiment(u, e), now, Render(ExperimentPath(t, key)));
  }

  lemma ApartFrom(u: string, j: string, t: string, k: string)
    requires Separate(u, t, EXPERIMENTS) && (u, j) != (t, k)
    ensures Render(ExperimentPath(u, j)) != Render(ExperimentPath(t, k))
  {
    hide ExtendsBy;
    if u == t {
      ExperimentsApart(t, j, k);
    } else if Render(ExperimentPath(u, j)) == Render(ExperimentPath(t, k)) {
      FamilyExtends(ExperimentPath(u, j), ExperimentPath(t, k));
    }
  }

  // ---- Runs ----

  datatype Request = Request(tenant: string, key: string, transition: Transition, now: int)

  function RunRequests(db: Db, rs: seq<Request>): Db
    decreases |rs|
  {
    if rs == [] then db
    else RunRequests(HandleTransition(db, rs[0].tenant, rs[0].key, rs[0].transition, rs[0].now).0, rs[1..])
  }

  predicate Known(status: string) {
    status == DRAFT || status == RUNNING || status == PAUSED || status == COMPLETED
  }

  function Rank(status: string): nat
    requires Known(status)
  {
    if status == DRAFT then 2 else if status == COMPLETED then 0 else 1
  }

  /** How a record may differ from what it was. */
  predicate Follows(e: Experiment, e': Experiment) {
    && e' == e.(status := e'.status, updatedAt := e'.updatedAt)
    && (if Known(e.status) then Known(e'.status) && Rank(e'.status) <= Rank(e.status) else e' == e)
    && (e.status == COMPLETED ==> e' == e)
  }

  lemma StatusesDiffer()
    ensures DRAFT != RUNNING && DRAFT != PAUSED && DRAFT != COMPLETED
    ensures RUNNING != PAUSED && RUNNING != COMPLETED && PAUSED != COMPLETED
  {
    assert DRAFT[0] != RUNNING[0] && DRAFT[0] != PAUSED[0] && DRAFT[0] != COMPLETED[0];
    assert RUNNING[0] != PAUSED[0] && RUNNING[0] != COMPLETED[0] && PAUSED[0] != COMPLETED[0];
  }

  lemma AllowedFollows(e: Experiment, tr: Transition, now: int)
    requires IsAllowedTransition(e.status, AllowedFrom(tr))
    ensures Follows(e, e.(status := Target(tr), updatedAt := Unix(now)))
  {
    StatusesDiffer();
  }

  lemma FollowsTransitive(a: Experiment, b: Experiment, c: Experiment)
    requires Follows(a, b) && Follows(b, c)
    ensures Follows(a, c)
  {
  }

  /** A request of t itself, or of a tenant that neither extends t by the word experiments nor is so extended by it. */
  predicate RequestedApart(r: Request, t: string) {
    Separate(r.tenant, t, EXPERIMENTS)
  }

  lemma RequestFollows(db: Db, r: Request, t: string, key: string)
    requires OwnExperiments(db, t) && RequestedApart(r, t) && Stored(db, t, key).Some?
    ensures var db' := HandleTransition(db, r.tenant, r.key, r.transition, r.now).0;
            && OwnExperiments(db', t) && Stored(db', t, key).Some?
            && Follows(Stored(db, t, key).value, Stored(db', t, key).value)
  {
    FollowsItself(Stored(db, t, key).value);
    RequestKeepsKeys(db, r, t);
    hide OwnExperiments, HandleTransition, IsAllowedTransition, Follows, Separate, Render;
    if r.tenant == t {
      TransitionEffect(db, t, r.key, r.transition, r.now);
      if r.key != key {
        ExperimentsApart(t, r.key, key);
      } else if IsAllowedTransition(Stored(db, t, key).value.status, AllowedFrom(r.transition)) {
        AllowedFollows(Stored(db, t, key).value, r.transition, r.now);
      }
    } else {
      OthersRequest(db, r, t, key);
    }
  }

  lemma RequestKeepsKeys(db: Db, r: Request, t: string)
    requires OwnExperiments(db, t) && RequestedApart(r, t)
    ensures OwnExperiments(HandleTransition(db, r.tenant, r.key, r.transition, r.now).0, t)
  {
    hide OwnExperiments, HandleTransition, Step, Separate;
    TransitionIsUpdate(db, r.tenant, r.key, r.transition, r.now);
    var db' := HandleTransition(db, r.tenant, r.key, r.transition, r.now).0;
    if db' != db {
      var e: Experiment :| db' == Step(db, UpdateExperiment(r.tenant, e), r.now).0;
      OwnExperimentsKept(db, UpdateExperiment(r.tenant, e), r.now, t);
    }
  }

  lemma OthersRequest(db: Db, r: Request, t: string, key: string)
    requires RequestedApart(r, t) && r.tenant != t
    ensures var db' := HandleTransition(db, r.tenant, r.key, r.transition, r.now).0;
            Slot(db', ExperimentPath(t, key)) == Slot(db, ExperimentPath(t, key))
  {
    hide HandleTransition, Step, Separate, Slot;
    TransitionIsUpdate(db, r.tenant, r.key, r.transition, r.now);
    var db' := HandleTransition(db, r.tenant, r.key, r.transition, r.now).0;
    if db' != db {
      var e: Experiment :| db' == Step(db, UpdateExperiment(r.tenant, e), r.now).0;
      UpdateOfOthers(db, r.tenant, e, r.now, t, key);
    }
  }

  lemma FollowsItself(e: Experiment)
    ensures Follows(e, e)
  {
  }

  /**
   * The lifecycle over runs of any requests to any experiments, of t and of tenants
   * that share no key of an experiment with it: the status stays among the four and its
   * rank never rises, completed is final, every other field but the update time is
   * kept, and a status outside the four never changes.
   */
  lemma {:induction false} LifecycleOverRuns(db: Db, rs: seq<Request>, t: string, key: string)
    requires OwnExperiments(db, t) && Stored(db, t, key).Some? && forall r <- rs :: RequestedApart(r, t)
    ensures var db' := RunRequests(db, rs);
            && OwnExperiments(db', t) && Stored(db', t, key).Some?
            && Follows(Stored(db, t, key).value, Stored(db', t, key).value)
    decreases |rs|
  {
    hide OwnExperiments, Stored, HandleTransition, Follows, RequestedApart;
    if rs == [] {
      FollowsItself(Stored(db, t, key).value);
    } else {
      var r := rs[0];
      var db1 := HandleTransition(db, r.tenant, r.key, r.transition, r.now).0;
      RequestFollows(db, r, t, key);
      LifecycleOverRuns(db1, rs[1..], t, key);
      FollowsTransitive(
        Stored(db, t, key).value, Stored(db1, t, key).value, Stored(RunRequests(db1, rs[1..]), t, key).value);
    }
  }

  /** A record without a status keeps it: no transition is ever accepted. */
  lemma NoStatusIsStuck(db: Db, t: string, key: string, rs: seq<Request>, tr: Transition, at: int)
    requires OwnExperiments(db, t) && forall r <- rs :: RequestedApart(r, t)
    requires Stored(db, t, key).Some? && Stored(db, t, key).value.status == ""
    ensures var db' := RunRequests(db, rs);
            Stored(db', t, key) == Stored(db, t, key) && HandleTransition(db', t, key, tr, at).1 == Conflict
  {
    hide OwnExperiments, Stored, HandleTransition, RequestedApart;
    NoTransitionFromNothing(tr);
    LifecycleOverRuns(db, rs, t, key);
    TransitionEffect(RunRequests(db, rs), t, key, tr, at);
    hide RunRequests, IsAllowedTransition;
  }

  /** So an experiment created over HTTP can never be started, paused or completed. */
  lemma CreatedOverHttpIsStuck(
    db: Db, t: string, key: string, name: string, sticky: bool, variants: seq<Variant>, allocation: seq<Allocation>,
    now: int, rs: seq<Request>, tr: Transition, at: int)
    requires OwnExperiments(db, t) && forall r <- rs :: RequestedApart(r, t)
    ensures var body := RequestToExperiment(key, name, sticky, variants, allocation);
            var db' := RunRequests(DoCreateExperiment(db, now, t, body).0, rs);
            && Stored(db', t, key).Some? && IsRequested(Stored(db', t, key).value, name, sticky, variants, allocation)
            && HandleTransition(db', t, key, tr, at).1 == Conflict
  {
    hide OwnExperiments, Stored, DoCreateExperiment, HandleTransition, RunRequests;
    var body := RequestToExperiment(key, name, sticky, variants, allocation);
    CreateStores(db, t, body, now);
    NoStatusIsStuck(DoCreateExperiment(db, now, t, body).0, t, key, rs, tr, at);
  }

  /** And a PUT takes the status away from any experiment, whatever it was. */
  lemma PutErasesStatus(
    db: Db, t: string, key: string, name: string, sticky: bool, variants: seq<Variant>, allocation: seq<Allocation>,
    now: int, rs: seq<Request>, tr: Transition, at: int)
    requires OwnExperiments(db, t) && Stored(db, t, key).Some? && forall r <- rs :: RequestedApart(r, t)
    ensures var put := DoUpdateExperiment(db, now, t, RequestToExperiment(key, name, sticky, variants, allocation)).0;
            var db' := RunRequests(put, rs);
            && Stored(db', t, key).Some? && IsRequested(Stored(db', t, key).value, name, sticky, variants, allocation)
            && HandleTransition(db', t, key, tr, at).1 == Conflict
  {
    var body := RequestToExperiment(key, name, sticky, variants, allocation);
    UpdateStores(db, t, body, now);
    assert Step(db, UpdateExperiment(t, body), now).0 == DoUpdateExperiment(db, now, t, body).0;
    hide OwnExperiments, DoUpdateExperiment, HandleTransition, RunRequests, Render, Step;
    OwnExperimentsKept(db, UpdateExperiment(t, body), now, t);
    NoStatusIsStuck(DoUpdateExperiment(db, now, t, body).0, t, key, rs, tr, at);
  }

  lemma CreationStores(db: Db, t: string, e: Experiment, now: int)
    ensures Lookup(Step(db, CreateExperiment(t, e), now).0, Render(ExperimentPath(t, e.key))) ==
            Some(Data(ExperimentDoc(StampedExperiment(e, Unix(now), Unix(now))), None))
  {
    if Render(ExperimentPath(t, e.key)) == Render(ExperimentKeys(t)) {
      FamiliesApart(ExperimentPath(t, e.key), ExperimentKeys(t));
    }
    hide Render;
  }

  lemma CreateStores(db: Db, t: string, e: Experiment, now: int)
    requires OwnExperiments(db, t)
    ensures var db' := DoCreateExperiment(db, now, t, e).0;
            OwnExperiments(db', t) && Stored(db', t, e.key) == Some(StampedExperiment(e, Unix(now), Unix(now)))
  {
    assert Step(db, CreateExperiment(t, e), now).0 == DoCreateExperiment(db, now, t, e).0;
    hide Render, OwnExperiments, Step, DoCreateExperiment;
    CreationStores(db, t, e, now);
    OwnExperimentsKept(db, CreateExperiment(t, e), now, t);
  }

  /**
   * A transition is a read and a later write, not one step. When a pause and a
   * completion of a running experiment both read before either writes, the
   * completed experiment ends up paused.
   */
  lemma InterleavedPauseRevivesCompleted(db: Db, t: string, key: string, now: int)
    requires OwnExperiments(db, t) && Stored(db, t, key).Some? && Stored(db, t, key).value.status == RUNNING
    ensures var e := Stored(db, t, key).value;
            var db1 := DoUpdateExperiment(db, now, t, e.(status := Target(Complete))).0;
            var db2 := DoUpdateExperiment(db1, now, t, e.(status := Target(Pause))).0;
            && IsAllowedTransition(e.status, AllowedFrom(Complete)) && IsAllowedTransition(e.status, AllowedFrom(Pause))
            && Stored(db1, t, key).Some? && Stored(db1, t, key).value.status == COMPLETED
            && Stored(db2, t, key).Some? && Stored(db2, t, key).value.status == PAUSED
  {
    StoredIsRead(db, t, key);
    var e := Stored(db, t, key).value;
    assert AllowedFrom(Complete)[0] == RUNNING == AllowedFrom(Pause)[0];
    var done := e.(status := Target(Complete));
    UpdateStores(db, t, done, now);
    var db1 := DoUpdateExperiment(db, now, t, done).0;
    assert db1 == Step(db, UpdateExperiment(t, done), now).0;
    hide OwnExperiments, DoUpdateExperiment, Render, Step;
    OwnExperimentsKept(db, UpdateExperiment(t, done), now, t);
    UpdateStores(db1, t, e.(status := Target(Pause)), now);
  }
}
