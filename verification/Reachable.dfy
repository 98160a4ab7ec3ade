/** What holds of the store in every state it can reach: records sit under their own keys. */
module Reachable {
  import opened Keys
  import opened F = FlatStore
  import opened T = TenantStore
  import opened Refinement

  ghost predicate Keyed(c: Clean) {
    && (forall p :: p in c.flags ==> c.flags[p].key == p.1)
    && (forall p :: p in c.experiments ==> c.experiments[p].key == p.1)
  }

  /** The flat store represents some tenant store that keeps every record under its own key. */
  ghost predicate Sound(db: Db) {
    exists c :: Represents(db, c) && Keyed(c)
  }

  lemma EmptyIsSound()
    ensures Sound(map[])
  {
    EmptyRepresentsEmpty();
    assert Keyed(Empty);
  }

  lemma StaysKeyed(c: Clean, op: Op, now: int)
    requires Keyed(c)
    ensures Keyed(CleanStep(c, op, now).0)
  {
    hide ReadOnly;
  }

  lemma SoundStep(db: Db, op: Op, now: int)
    requires Sound(db) && PlainOp(op)
    ensures Sound(Step(db, op, now).0)
  {
    var c :| Represents(db, c) && Keyed(c);
    hide Represents, Keyed, Step, CleanStep;
    StepRefines(db, c, op, now);
    StaysKeyed(c, op, now);
  }

  /** Every state reached by calls with plain ids is sound. */
  lemma {:induction false} SoundRun(db: Db, calls: seq<Call>)
    requires Sound(db) && PlainCalls(calls)
    ensures Sound(Run(db, calls))
    decreases |calls|
  {
    hide Sound, Step;
    if calls != [] {
      SoundStep(db, calls[0].op, calls[0].now);
      assert PlainCalls(calls[1..]);
      SoundRun(Step(db, calls[0].op, calls[0].now).0, calls[1..]);
    }
  }

  /** So every state that calls can reach from the empty store is sound. */
  lemma ReachedIsSound(calls: seq<Call>)
    requires PlainCalls(calls)
    ensures Sound(Run(map[], calls))
  {
    EmptyIsSound();
    SoundRun(map[], calls);
  }

  /** In a sound store a flag is found under its own key, and at any time alike. */
  lemma FlagFound(db: Db, now: int, t: string, k: string)
    requires Sound(db) && PlainTenant(t)
    ensures var r := DoGetFlag(db, now, t, k);
            && r.FlagIs? && (r.flag.Some? ==> r.flag.value.key == k)
            && forall later :: DoGetFlag(db, later, t, k) == r
  {
    var c :| Represents(db, c) && Keyed(c);
    hide Represents, Render, GetFlagDoc;
    forall later
      ensures DoGetFlag(db, later, t, k) == FlagIs(Lookup(c.flags, (t, k)))
    {
      ReadFlag(db, c, later, t, k);
    }
  }

  /** The same for experiments. */
  lemma ExperimentFound(db: Db, now: int, t: string, k: string)
    requires Sound(db) && PlainTenant(t)
    ensures var r := DoGetExperiment(db, now, t, k);
            && r.ExperimentIs? && (r.experiment.Some? ==> r.experiment.value.key == k)
            && forall later :: DoGetExperiment(db, later, t, k) == r
  {
    var c :| Represents(db, c) && Keyed(c);
    hide Represents, Render, GetExperimentDoc;
    forall later
      ensures DoGetExperiment(db, later, t, k) == ExperimentIs(Lookup(c.experiments, (t, k)))
    {
      ReadExperiment(db, c, later, t, k);
    }
  }
}
