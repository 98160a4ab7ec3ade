/** Exactly which tenants can break the lifecycle of another tenant's experiments, one whole request at a time. */
module LifecycleTenants {
  import opened Options
  import opened Records
  import opened Keys
  import opened KeyConflicts
  import opened OwnRecords
  import opened F = FlatStore
  import opened T = TenantStore
  import opened Refinement
  import opened Lifecycle

  // ---- Keys of one tenant among those of another ----

  /** Where t comes upon the experiment k of a tenant that extends it. */
  function KeyWithin(t: string, u: string, k: string): (key: string)
    requires ExtendsBy(t, u, EXPERIMENTS)
    ensures |key| > |k|
  {
    var c := Cut(u[|t| + 1..]);
    if c.found then c.after + (":" + (EXPERIMENTS + (":" + k))) else EXPERIMENTS + (":" + k)
  }

  /** And where upon its index. */
  function IndexWithin(t: string, u: string): (key: string)
    requires ExtendsBy(t, u, EXPERIMENTS)
    ensures |key| >= 15
  {
    var c := Cut(u[|t| + 1..]);
    assert |"experiment_keys"| == 15;
    if c.found then c.after + (":" + "experiment_keys") else "experiment_keys"
  }

  lemma SharedKeys(t: string, u: string, k: string)
    requires ExtendsBy(t, u, EXPERIMENTS)
    ensures Render(ExperimentPath(u, k)) == Render(ExperimentPath(t, KeyWithin(t, u, k)))
    ensures Render(ExperimentKeys(u)) == Render(ExperimentPath(t, IndexWithin(t, u)))
  {
    ExperimentKeyIs(u, k);
    ExperimentKeyIs(t, KeyWithin(t, u, k));
    ExperimentKeyIs(t, IndexWithin(t, u));
    KeyOf(ExperimentKeys(u));
    assert Parts(ExperimentKeys(u))[1..] == ["experiment_keys"];
    assert BuildKey(["experiment_keys"]) == "experiment_keys";
    hide Render, BuildKey, ExtendsBy, Cut;
    TailWithin(t, u, EXPERIMENTS, EXPERIMENTS + (":" + k));
    TailWithin(t, u, EXPERIMENTS, "experiment_keys");
  }

  // ---- Breaking the lifecycle ----

  /** After calls of the two tenants, a request of one of them does to an experiment of t what none may. */
  ghost predicate Breaks(calls: seq<Call>, r: Request, t: string, u: string, key: string) {
    var db := Run(map[], calls);
    var db' := HandleTransition(db, r.tenant, r.key, r.transition, r.now).0;
    && CallsOfBoth(calls, t, u) && (r.tenant == t || r.tenant == u)
    && Stored(db, t, key).Some?
    && !(Stored(db', t, key).Some? && Follows(Stored(db, t, key).value, Stored(db', t, key).value))
  }

  lemma SeparateDoNotBreak(calls: seq<Call>, r: Request, t: string, u: string, key: string)
    requires Separate(u, t, EXPERIMENTS)
    ensures !Breaks(calls, r, t, u, key)
  {
    hide Separate, Stored, Run, HandleTransition, Follows;
    if CallsOfBoth(calls, t, u) && (r.tenant == t || r.tenant == u) && Stored(Run(map[], calls), t, key).Some? {
      NothingIsOwn(t);
      SeparateFromItself(t);
      OwnKeysReached(map[], calls, t);
      RequestFollows(Run(map[], calls), r, t, key);
    }
  }

  lemma SeparateFromItself(t: string)
    ensures Separate(t, t, EXPERIMENTS)
  {
  }

  function Blank(key: string, status: string): Experiment {
    Experiment(key, "", status, false, [], [], 0, 0)
  }

  /** A pause that reads a running record under one key and writes it over a completed one under another. */
  lemma PauseElsewhere(db: Db, x: string, from: string, f: Experiment, e: Experiment, t: string, key: string)
    requires Lookup(db, Render(ExperimentPath(x, from))) == Some(Data(ExperimentDoc(f), None)) && f.status == RUNNING
    requires Lookup(db, Render(ExperimentPath(t, key))) == Some(Data(ExperimentDoc(e), None)) && e.status == COMPLETED
    requires Render(ExperimentPath(x, f.key)) == Render(ExperimentPath(t, key))
    ensures var db' := HandleTransition(db, x, from, Pause, 0).0;
            Stored(db, t, key) == Some(e) && Stored(db', t, key).Some?
            && Stored(db', t, key).value.status == PAUSED && !Follows(e, Stored(db', t, key).value)
  {
    assert AllowedFrom(Pause)[0] == RUNNING;
    StatusesDiffer();
    hide Render;
  }

  lemma TwoCreations(t: string, e: Experiment, u: string, f: Experiment)
    ensures Run(map[], [Call(CreateExperiment(t, e), 0), Call(CreateExperiment(u, f), 0)]) ==
            Step(Step(map[], CreateExperiment(t, e), 0).0, CreateExperiment(u, f), 0).0
  {
    hide Step;
    var calls := [Call(CreateExperiment(t, e), 0), Call(CreateExperiment(u, f), 0)];
    var db := Step(map[], CreateExperiment(t, e), 0).0;
    assert calls[1..] == [calls[1]] && calls[1..][1..] == [];
    assert Run(map[], calls) == Run(db, calls[1..]) == Run(Step(db, CreateExperiment(u, f), 0).0, []);
  }

  lemma CreatedBlank(db: Db, t: string, e: Experiment)
    requires e.createdAt == e.updatedAt == 0
    ensures Lookup(Step(db, CreateExperiment(t, e), 0).0, Render(ExperimentPath(t, e.key))) ==
            Some(Data(ExperimentDoc(e), None))
  {
    hide Render, Step;
    CreationStores(db, t, e, 0);
  }

  /** A tenant that is extended reads an experiment of the other as its own, and writes it over its own. */
  lemma ExtendedBreaks(t: string, u: string) returns (calls: seq<Call>, r: Request, key: string)
    requires ExtendsBy(t, u, EXPERIMENTS)
    ensures Breaks(calls, r, t, u, key)
  {
    hide ExtendsBy, Render, Step, Stored, HandleTransition, Follows, KeyWithin, IndexWithin;
    var e, f := Blank("k", COMPLETED), Blank("k", RUNNING);
    var db := Step(map[], CreateExperiment(t, e), 0).0;
    SharedKeys(t, u, "k");
    ExperimentsApart(t, KeyWithin(t, u, "k"), "k");
    ExperimentsApart(t, IndexWithin(t, u), "k");
    CreatedBlank(map[], t, e);
    CreatedBlank(db, u, f);
    StepLeaves(db, CreateExperiment(u, f), 0, Render(ExperimentPath(t, "k")));
    TwoCreations(t, e, u, f);
    calls, key := [Call(CreateExperiment(t, e), 0), Call(CreateExperiment(u, f), 0)], "k";
    r := Request(t, KeyWithin(t, u, "k"), Pause, 0);
    PauseElsewhere(Run(map[], calls), t, r.key, f, e, t, "k");
    hide Run;
  }

  /** A tenant that is extended reads one experiment of the other and writes it over another. */
  lemma ExtendingIsBroken(t: string, u: string) returns (calls: seq<Call>, r: Request, key: string)
    requires ExtendsBy(u, t, EXPERIMENTS)
    ensures Breaks(calls, r, t, u, key)
  {
    hide ExtendsBy, Render, Step, Stored, HandleTransition, Follows, KeyWithin;
    var j := KeyWithin(u, t, "k");
    var e, f := Blank("k", COMPLETED), Blank(j, RUNNING);
    var db := Step(map[], CreateExperiment(t, e), 0).0;
    SharedKeys(u, t, "k");
    SharedKeys(u, t, j);
    ExperimentsApart(t, j, "k");
    if Render(ExperimentPath(t, "k")) == Render(ExperimentKeys(t)) {
      FamiliesApart(ExperimentPath(t, "k"), ExperimentKeys(t));
    }
    CreatedBlank(map[], t, e);
    CreatedBlank(db, t, f);
    StepLeaves(db, CreateExperiment(t, f), 0, Render(ExperimentPath(t, "k")));
    TwoCreations(t, e, t, f);
    calls, key := [Call(CreateExperiment(t, e), 0), Call(CreateExperiment(t, f), 0)], "k";
    r := Request(u, KeyWithin(u, t, j), Pause, 0);
    PauseElsewhere(Run(map[], calls), u, r.key, f, e, t, "k");
    hide Run;
  }

  /**
   * For any two tenants: some calls of the two and a request of one of them break
   * the lifecycle of an experiment of t if and only if one id is the other followed
   * by a colon and the word experiments, alone or with a colon and more.
   */
  lemma LifecycleBreaksExactlyWhen(t: string, u: string)
    requires t != u
    ensures (exists calls: seq<Call>, r: Request, key: string :: Breaks(calls, r, t, u, key)) <==>
            ExtendsBy(t, u, EXPERIMENTS) || ExtendsBy(u, t, EXPERIMENTS)
  {
    hide ExtendsBy, Breaks;
    if ExtendsBy(t, u, EXPERIMENTS) {
      var calls, r, key := ExtendedBreaks(t, u);
      assert Breaks(calls, r, t, u, key);
    } else if ExtendsBy(u, t, EXPERIMENTS) {
      var calls, r, key := ExtendingIsBroken(t, u);
      assert Breaks(calls, r, t, u, key);
    } else {
      forall calls: seq<Call>, r: Request, key: string
        ensures !Breaks(calls, r, t, u, key)
      {
        SeparateDoNotBreak(calls, r, t, u, key);
      }
    }
  }
}
