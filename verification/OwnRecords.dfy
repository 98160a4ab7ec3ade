/** Flags and experiments stay under their own keys, unless other tenants extend this one by the name of the family. */
module OwnRecords {
  import opened Options
  import opened Records
  import opened Keys
  import opened KeyConflicts
  import opened F = FlatStore
  import opened T = TenantStore

  const FLAGS := "flags"
  const EXPERIMENTS := "experiments"

  /** One and the same tenant, or two of which neither extends the other by the word. */
  predicate Separate(u: string, t: string, word: string) {
    u == t || (!ExtendsBy(t, u, word) && !ExtendsBy(u, t, word))
  }

  /** The call is a lookup by hash, or made by t or by a tenant separate from it. */
  predicate CalledApart(op: Op, t: string, word: string) {
    op.GetAPIKeyByHash? || Separate(op.tenant, t, word)
  }

  /** Calls of two tenants, and lookups by hash. */
  ghost predicate CallsOfBoth(calls: seq<Call>, t: string, u: string) {
    forall call <- calls :: call.op.GetAPIKeyByHash? || call.op.tenant == t || call.op.tenant == u
  }

  predicate OwnFlag(entry: Option<Entry>, k: string) {
    match entry
    case Some(Data(FlagDoc(f), deadline)) => f.key == k && deadline.None?
    case _ => true
  }

  predicate OwnExperiment(entry: Option<Entry>, k: string) {
    match entry
    case Some(Data(ExperimentDoc(e), deadline)) => e.key == k && deadline.None?
    case _ => true
  }

  /** Every flag under a key of t has that key, and does not expire. */
  ghost predicate OwnFlags(db: Db, t: string) {
    forall k: string :: OwnFlag(Lookup(db, Render(FlagPath(t, k))), k)
  }

  /** Every experiment under a key of t has that key, and does not expire. */
  ghost predicate OwnExperiments(db: Db, t: string) {
    forall k: string :: OwnExperiment(Lookup(db, Render(ExperimentPath(t, k))), k)
  }

  /** A call that puts a flag somewhere puts it under its own key, for its own tenant, and for ever. */
  lemma NewFlag(db: Db, op: Op, now: int, key: string, f: FlagDefinition, deadline: Option<int>)
    requires Lookup(Step(db, op, now).0, key) == Some(Data(FlagDoc(f), deadline))
    requires Lookup(db, key) != Some(Data(FlagDoc(f), deadline))
    ensures (op.CreateFlag? || op.UpdateFlag?) && Render(FlagPath(op.tenant, f.key)) == key && deadline.None?
  {
    hide Render, BuildKey;
    match op
    case CreateFlag(_, _) =>
    case UpdateFlag(_, _) =>
    case DeleteFlag(_, _) =>
    case CreateExperiment(_, _) =>
    case CreateAPIKey(_, _) =>
    case RevokeAPIKey(_, _) =>
    case _ => hide DoListFlags, DoListExperiments, DoListAPIKeys, DoGetAPIKeyByHash;
  }

  lemma NewExperiment(db: Db, op: Op, now: int, key: string, e: Experiment, deadline: Option<int>)
    requires Lookup(Step(db, op, now).0, key) == Some(Data(ExperimentDoc(e), deadline))
    requires Lookup(db, key) != Some(Data(ExperimentDoc(e), deadline))
    ensures (op.CreateExperiment? || op.UpdateExperiment?) && deadline.None?
    ensures Render(ExperimentPath(op.tenant, e.key)) == key
  {
    hide Render, BuildKey;
    match op
    case CreateFlag(_, _) =>
    case DeleteFlag(_, _) =>
    case CreateExperiment(_, _) =>
    case UpdateExperiment(_, _) =>
    case CreateAPIKey(_, _) =>
    case RevokeAPIKey(_, _) =>
    case _ => hide DoListFlags, DoListExperiments, DoListAPIKeys, DoGetAPIKeyByHash;
  }

  lemma FlagKept(db: Db, op: Op, now: int, t: string, k: string)
    requires CalledApart(op, t, FLAGS) && OwnFlag(Lookup(db, Render(FlagPath(t, k))), k)
    ensures OwnFlag(Lookup(Step(db, op, now).0, Render(FlagPath(t, k))), k)
  {
    hide Render, Step, ExtendsBy;
    var key := Render(FlagPath(t, k));
    var before: Option<Entry>, after: Option<Entry> := Lookup(db, key), Lookup(Step(db, op, now).0, key);
    match after
    case Some(Data(FlagDoc(f), deadline)) =>
      if after != before {
        NewFlag(db, op, now, key, f, deadline);
        if op.tenant != t {
          FamilyExtends(FlagPath(op.tenant, f.key), FlagPath(t, k));
        } else if f.key != k {
          FlagsApart(t, f.key, k);
        }
      }
    case _ =>
  }

  lemma ExperimentKept(db: Db, op: Op, now: int, t: string, k: string)
    requires CalledApart(op, t, EXPERIMENTS) && OwnExperiment(Lookup(db, Render(ExperimentPath(t, k))), k)
    ensures OwnExperiment(Lookup(Step(db, op, now).0, Render(ExperimentPath(t, k))), k)
  {
    hide Render, Step, ExtendsBy;
    var key := Render(ExperimentPath(t, k));
    var before: Option<Entry>, after: Option<Entry> := Lookup(db, key), Lookup(Step(db, op, now).0, key);
    match after
    case Some(Data(ExperimentDoc(e), deadline)) =>
      if after != before {
        NewExperiment(db, op, now, key, e, deadline);
        if op.tenant != t {
          FamilyExtends(ExperimentPath(op.tenant, e.key), ExperimentPath(t, k));
        } else if e.key != k {
          ExperimentsApart(t, e.key, k);
        }
      }
    case _ =>
  }

  /** Every call of t and of tenants separate from it keeps the flags of t under their own keys. */
  lemma OwnFlagsKept(db: Db, op: Op, now: int, t: string)
    requires OwnFlags(db, t) && CalledApart(op, t, FLAGS)
    ensures OwnFlags(Step(db, op, now).0, t)
  {
    hide Render, Step, CalledApart;
    forall k: string
      ensures OwnFlag(Lookup(Step(db, op, now).0, Render(FlagPath(t, k))), k)
    {
      FlagKept(db, op, now, t, k);
    }
  }

  /** And likewise its experiments. */
  lemma OwnExperimentsKept(db: Db, op: Op, now: int, t: string)
    requires OwnExperiments(db, t) && CalledApart(op, t, EXPERIMENTS)
    ensures OwnExperiments(Step(db, op, now).0, t)
  {
    hide Render, Step, CalledApart;
    forall k: string
      ensures OwnExperiment(Lookup(Step(db, op, now).0, Render(ExperimentPath(t, k))), k)
    {
      ExperimentKept(db, op, now, t, k);
    }
  }

  /** So in every state that such calls reach, flags and experiments are under their own keys. */
  lemma {:induction false} OwnKeysReached(db: Db, calls: seq<Call>, t: string)
    ensures OwnFlags(db, t) && (forall call <- calls :: CalledApart(call.op, t, FLAGS)) ==>
              OwnFlags(Run(db, calls), t)
    ensures OwnExperiments(db, t) && (forall call <- calls :: CalledApart(call.op, t, EXPERIMENTS)) ==>
              OwnExperiments(Run(db, calls), t)
    decreases |calls|
  {
    hide OwnFlags, OwnExperiments, Step, CalledApart;
    if calls != [] {
      var call := calls[0];
      assert forall c <- calls[1..] :: c in calls;
      if OwnFlags(db, t) && CalledApart(call.op, t, FLAGS) {
        OwnFlagsKept(db, call.op, call.now, t);
      }
      if OwnExperiments(db, t) && CalledApart(call.op, t, EXPERIMENTS) {
        OwnExperimentsKept(db, call.op, call.now, t);
      }
      OwnKeysReached(Step(db, call.op, call.now).0, calls[1..], t);
    }
  }

  lemma NothingIsOwn(t: string)
    ensures OwnFlags(map[], t) && OwnExperiments(map[], t)
  {
    hide Render;
  }
}
