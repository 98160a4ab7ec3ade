/** Lifecycle handlers as they run: each reads the record and writes it later, and others come in between. */
module LifecycleSchedules {
  import opened Options
  import opened Records
  import opened Keys
  import opened OwnRecords
  import opened F = FlatStore
  import opened Refinement
  import opened Lifecycle

  /** A request for a transition of one experiment. */
  datatype Handler = Handler(tenant: string, key: string, transition: Transition)

  /** How far a handler has come; it keeps the record that it read. */
  datatype Phase = Idle | Loaded(read: Experiment) | Replied(reply: Reply)

  datatype State = State(db: Db, phases: seq<Phase>)

  /** The two halves of handler i, at their times, or an RPC of somebody else. */
  datatype Action = Read(i: nat, now: int) | Write(i: nat, now: int) | Other(call: Call)

  function AfterRead(db: Db, h: Handler, now: int): Phase {
    var got := DoGetExperiment(db, now, h.tenant, h.key);
    if !got.ExperimentIs? then Replied(InternalError)
    else if got.experiment.None? then Replied(NotFoundReply)
    else if !IsAllowedTransition(got.experiment.value.status, AllowedFrom(h.transition)) then Replied(Conflict)
    else Loaded(got.experiment.value)
  }

  /** What a handler writes, given what it read. */
  function Written(h: Handler, read: Experiment): Experiment {
    read.(status := Target(h.transition))
  }

  function AfterWrite(r: Response): Phase {
    Replied(if r.ExperimentIs? && r.experiment.Some? then Updated(r.experiment.value) else InternalError)
  }

  /** An action whose handler is not at that step does nothing. */
  ghost function Act(hs: seq<Handler>, s: State, a: Action): (s': State)
    requires |s.phases| == |hs|
    ensures |s'.phases| == |hs|
  {
    match a
    case Read(i, now) =>
      if i < |hs| && s.phases[i].Idle? then s.(phases := s.phases[i := AfterRead(s.db, hs[i], now)]) else s
    case Write(i, now) =>
      if i < |hs| && s.phases[i].Loaded? then
        var (db', r) := DoUpdateExperiment(s.db, now, hs[i].tenant, Written(hs[i], s.phases[i].read));
        State(db', s.phases[i := AfterWrite(r)])
      else s
    case Other(call) => s.(db := Step(s.db, call.op, call.now).0)
  }

  ghost function Schedule(hs: seq<Handler>, s: State, actions: seq<Action>): (s': State)
    requires |s.phases| == |hs|
    ensures |s'.phases| == |hs|
    decreases |actions|
  {
    if actions == [] then s else Schedule(hs, Act(hs, s, actions[0]), actions[1..])
  }

  /** A handler that nobody interrupts is the transition as one step. */
  lemma AloneIsOneStep(h: Handler, db: Db, now: int)
    ensures var s := Schedule([h], State(db, [Idle]), [Read(0, now), Write(0, now)]);
            var (db', reply) := HandleTransition(db, h.tenant, h.key, h.transition, now);
            s == State(db', [Replied(reply)])
  {
    hide DoGetExperiment, DoUpdateExperiment, IsAllowedTransition;
    var hs, s0 := [h], State(db, [Idle]);
    var all := [Read(0, now), Write(0, now)];
    assert all[1..] == [Write(0, now)] && all[1..][1..] == [];
    var s1 := Act(hs, s0, Read(0, now));
    var s2 := Act(hs, s1, Write(0, now));
    assert Schedule(hs, s0, all) == Schedule(hs, s1, all[1..]) == Schedule(hs, s2, []) == s2;
    assert |s2.phases| == 1;
  }

  // ---- What every action keeps ----

  /** A handler is done, has yet to read, or keeps a record that it was allowed to change. */
  predicate PhaseFits(h: Handler, p: Phase, t: string) {
    h.tenant == t && p.Loaded? ==>
      p.read.key == h.key && IsAllowedTransition(p.read.status, AllowedFrom(h.transition))
  }

  /** The records of t are under their own keys, and nobody else's handlers can reach them. */
  ghost predicate Good(hs: seq<Handler>, s: State, t: string) {
    && |s.phases| == |hs| && OwnExperiments(s.db, t)
    && forall i :: 0 <= i < |hs| ==> Separate(hs[i].tenant, t, EXPERIMENTS) && PhaseFits(hs[i], s.phases[i], t)
  }

  /** RPCs of others come from t or from separate tenants, and leave the experiment in question alone. */
  ghost predicate LeavesAlone(a: Action, t: string, key: string) {
    a.Other? ==>
      && CalledApart(a.call.op, t, EXPERIMENTS)
      && forall q: Path :: Touches(a.call.op, q) ==> Render(q) != Render(ExperimentPath(t, key))
  }

  lemma ReadKeepsGood(hs: seq<Handler>, s: State, i: nat, now: int, t: string)
    requires Good(hs, s, t)
    ensures Good(hs, Act(hs, s, Read(i, now)), t)
  {
    if i < |hs| && hs[i].tenant == t {
      NoTransitionFromNothing(hs[i].transition);
      if Stored(s.db, t, hs[i].key).Some? {
        StoredIsRead(s.db, t, hs[i].key);
      } else {
        NothingIsRead(s.db, t, hs[i].key, now);
      }
    }
    hide OwnExperiments, Stored, DoGetExperiment, Separate, IsAllowedTransition;
  }

  lemma WriteIsUpdate(hs: seq<Handler>, s: State, i: nat, now: int)
    requires |s.phases| == |hs| && i < |hs| && s.phases[i].Loaded?
    ensures Act(hs, s, Write(i, now)).db ==
            Step(s.db, UpdateExperiment(hs[i].tenant, Written(hs[i], s.phases[i].read)), now).0
  {
    hide DoUpdateExperiment;
  }

  lemma ActKeepsGood(hs: seq<Handler>, s: State, a: Action, t: string, key: string)
    requires Good(hs, s, t) && LeavesAlone(a, t, key)
    ensures Good(hs, Act(hs, s, a), t)
  {
    match a
    case Read(i, now) => ReadKeepsGood(hs, s, i, now, t);
    case Write(i, now) =>
      hide OwnExperiments, Step, DoUpdateExperiment, Separate;
      if i < |hs| && s.phases[i].Loaded? {
        WriteIsUpdate(hs, s, i, now);
        OwnExperimentsKept(s.db, UpdateExperiment(hs[i].tenant, Written(hs[i], s.phases[i].read)), now, t);
      }
    case Other(call) =>
      hide OwnExperiments, Step, CalledApart, Separate;
      OwnExperimentsKept(s.db, call.op, call.now, t);
  }

  /** Handler i has read the experiment and is about to write it. */
  predicate Writes(hs: seq<Handler>, s: State, a: Action, t: string, key: string)
    requires |s.phases| == |hs|
  {
    a.Write? && a.i < |hs| && s.phases[a.i].Loaded? && hs[a.i].tenant == t && hs[a.i].key == key
  }

  /** The experiment changes only when a handler of it writes what it had read, with the new status. */
  lemma ActOnStored(hs: seq<Handler>, s: State, a: Action, t: string, key: string)
    requires Good(hs, s, t) && LeavesAlone(a, t, key) && Stored(s.db, t, key).Some?
    ensures var before, after := Stored(s.db, t, key), Stored(Act(hs, s, a).db, t, key);
            if Writes(hs, s, a, t, key)
            then after == Some(StampedExperiment(
                                 Written(hs[a.i], s.phases[a.i].read), before.value.createdAt, Unix(a.now)))
            else after == before
  {
    match a
    case Read(_, _) =>
    case Write(i, now) =>
      if i < |hs| && s.phases[i].Loaded? {
        var e := Written(hs[i], s.phases[i].read);
        if hs[i].tenant == t && hs[i].key == key {
          UpdateStores(s.db, t, e, now);
          hide OwnExperiments, DoUpdateExperiment, Render, Separate;
        } else {
          WriteIsUpdate(hs, s, i, now);
          hide OwnExperiments, Step, DoUpdateExperiment, Separate, Slot;
          UpdateOfOthers(s.db, hs[i].tenant, e, now, t, key);
        }
      }
    case Other(call) =>
      hide Step, Render, OwnExperiments;
      StepLeaves(s.db, call.op, call.now, Render(ExperimentPath(t, key)));
  }

  // ---- Is completed final? ----

  predicate IsCompleted(db: Db, t: string, key: string) {
    Stored(db, t, key).Some? && Stored(db, t, key).value.status == COMPLETED
  }

  /** Handler i read the experiment in time and is about to start or pause it. */
  predicate Stale(hs: seq<Handler>, s: State, i: nat, t: string, key: string)
    requires |s.phases| == |hs|
  {
    && i < |hs| && s.phases[i].Loaded? && hs[i].tenant == t && hs[i].key == key
    && hs[i].transition != Complete
  }

  ghost predicate AlwaysCompleted(hs: seq<Handler>, s: State, actions: seq<Action>, t: string, key: string)
    requires |s.phases| == |hs|
    decreases |actions|
  {
    && IsCompleted(s.db, t, key)
    && (actions != [] ==> AlwaysCompleted(hs, Act(hs, s, actions[0]), actions[1..], t, key))
  }

  ghost predicate NoStaleWrite(hs: seq<Handler>, s: State, actions: seq<Action>, t: string, key: string)
    requires |s.phases| == |hs|
  {
    forall a <- actions :: a.Write? ==> !Stale(hs, s, a.i, t, key)
  }

  predicate IsStaleWrite(hs: seq<Handler>, s: State, a: Action, t: string, key: string)
    requires |s.phases| == |hs|
  {
    a.Write? && Stale(hs, s, a.i, t, key)
  }

  /** A stale write revives the experiment; any other action leaves it completed. */
  lemma CompletedAfter(hs: seq<Handler>, s: State, a: Action, t: string, key: string)
    requires Good(hs, s, t) && LeavesAlone(a, t, key) && IsCompleted(s.db, t, key)
    ensures IsCompleted(Act(hs, s, a).db, t, key) <==> !IsStaleWrite(hs, s, a, t, key)
  {
    StatusesDiffer();
    ActOnStored(hs, s, a, t, key);
    hide OwnExperiments, Stored, Act, Good, LeavesAlone;
  }

  /** While the experiment is completed nobody gets to load it. */
  lemma StaleStays(hs: seq<Handler>, s: State, a: Action, t: string, key: string, j: nat)
    requires Good(hs, s, t) && IsCompleted(s.db, t, key) && !IsStaleWrite(hs, s, a, t, key)
    ensures Stale(hs, Act(hs, s, a), j, t, key) <==> Stale(hs, s, j, t, key)
  {
    StatusesDiffer();
    StoredIsRead(s.db, t, key);
    hide OwnExperiments, Stored, DoGetExperiment, DoUpdateExperiment, Step, Separate;
  }

  /**
   * Exactly when a completed experiment stays completed, over all schedules of any
   * handlers and of RPCs of others: if and only if no handler that had read it
   * before it was completed gets to write its start or pause.
   */
  lemma {:induction false} CompletedStaysExactlyWhen(
    hs: seq<Handler>, s: State, actions: seq<Action>, t: string, key: string)
    requires Good(hs, s, t) && IsCompleted(s.db, t, key)
    requires forall a <- actions :: LeavesAlone(a, t, key)
    ensures AlwaysCompleted(hs, s, actions, t, key) <==> NoStaleWrite(hs, s, actions, t, key)
    decreases |actions|
  {
    if actions != [] {
      var a, rest := actions[0], actions[1..];
      var s' := Act(hs, s, a);
      hide Act, Good, IsCompleted, Stale, LeavesAlone;
      ActKeepsGood(hs, s, a, t, key);
      CompletedAfter(hs, s, a, t, key);
      if IsStaleWrite(hs, s, a, t, key) {
        assert !AlwaysCompleted(hs, s', rest, t, key);
      } else {
        CompletedStaysExactlyWhen(hs, s', rest, t, key);
        SameStaleWrites(hs, s, a, rest, t, key);
        assert NoStaleWrite(hs, s, actions, t, key) <==> NoStaleWrite(hs, s, rest, t, key);
      }
    }
  }

  lemma SameStaleWrites(hs: seq<Handler>, s: State, a: Action, rest: seq<Action>, t: string, key: string)
    requires Good(hs, s, t) && IsCompleted(s.db, t, key) && !IsStaleWrite(hs, s, a, t, key)
    ensures NoStaleWrite(hs, Act(hs, s, a), rest, t, key) <==> NoStaleWrite(hs, s, rest, t, key)
  {
    var s' := Act(hs, s, a);
    hide Act, Good, IsCompleted, Stale;
    forall b <- rest | b.Write?
      ensures Stale(hs, s', b.i, t, key) <==> Stale(hs, s, b.i, t, key)
    {
      StaleStays(hs, s, a, t, key, b.i);
    }
  }

  // ---- The rest of the lifecycle ----

  /** The record is e up to a known status and the update time. */
  predicate Resembles(x: Experiment, e: Experiment) {
    Known(x.status) && x == e.(status := x.status, updatedAt := x.updatedAt)
  }

  /** So are the stored record and every record of it that a handler keeps. */
  predicate AllResemble(hs: seq<Handler>, s: State, t: string, key: string, e: Experiment)
    requires |s.phases| == |hs|
  {
    && Stored(s.db, t, key).Some? && Resembles(Stored(s.db, t, key).value, e)
    && forall i :: 0 <= i < |hs| && hs[i].tenant == t && hs[i].key == key && s.phases[i].Loaded? ==>
         Resembles(s.phases[i].read, e)
  }

  lemma TargetIsKnown(tr: Transition)
    ensures Known(Target(tr))
  {
  }

  /** No action, however stale, touches a field other than the status and the update time. */
  lemma ActKeepsResemblance(hs: seq<Handler>, s: State, a: Action, t: string, key: string, e: Experiment)
    requires Good(hs, s, t) && LeavesAlone(a, t, key) && AllResemble(hs, s, t, key, e)
    ensures AllResemble(hs, Act(hs, s, a), t, key, e)
  {
    ActOnStored(hs, s, a, t, key);
    if a.Write? && a.i < |hs| {
      TargetIsKnown(hs[a.i].transition);
    }
    if a.Read? {
      StoredIsRead(s.db, t, key);
    }
    hide OwnExperiments, Stored, DoGetExperiment, DoUpdateExperiment, Step, Separate;
    hide IsAllowedTransition, Known, LeavesAlone;
  }

  /** In every schedule, whatever it interleaves, the status stays known and all other fields are kept. */
  lemma {:induction false} SchedulesKeepFields(
    hs: seq<Handler>, s: State, actions: seq<Action>, t: string, key: string, e: Experiment)
    requires Good(hs, s, t) && AllResemble(hs, s, t, key, e)
    requires forall a <- actions :: LeavesAlone(a, t, key)
    ensures AllResemble(hs, Schedule(hs, s, actions), t, key, e)
    decreases |actions|
  {
    if actions != [] {
      hide Act, Good, AllResemble, LeavesAlone;
      ActKeepsGood(hs, s, actions[0], t, key);
      ActKeepsResemblance(hs, s, actions[0], t, key, e);
      SchedulesKeepFields(hs, Act(hs, s, actions[0]), actions[1..], t, key, e);
    }
  }

  function StoredRank(db: Db, t: string, key: string): int {
    var x := Stored(db, t, key);
    if x.Some? && Known(x.value.status) then Rank(x.value.status) else -1
  }

  lemma RankOfTarget(tr: Transition, before: string, read: string)
    requires Known(before) && IsAllowedTransition(read, AllowedFrom(tr))
    ensures Known(Target(tr))
    ensures Rank(Target(tr)) > Rank(before) <==> before == COMPLETED && tr != Complete
  {
    StatusesDiffer();
  }

  /** The rank rises exactly at a stale write onto a completed record. */
  lemma RankRisesExactlyWhen(hs: seq<Handler>, s: State, a: Action, t: string, key: string, e: Experiment)
    requires Good(hs, s, t) && LeavesAlone(a, t, key) && AllResemble(hs, s, t, key, e)
    ensures StoredRank(Act(hs, s, a).db, t, key) > StoredRank(s.db, t, key) <==>
            IsCompleted(s.db, t, key) && IsStaleWrite(hs, s, a, t, key)
  {
    ActOnStored(hs, s, a, t, key);
    ActKeepsResemblance(hs, s, a, t, key, e);
    if Writes(hs, s, a, t, key) {
      RankOfTarget(hs[a.i].transition, Stored(s.db, t, key).value.status, s.phases[a.i].read.status);
    }
    hide OwnExperiments, Stored, Act, Separate, IsAllowedTransition, Known, Rank, LeavesAlone, Target;
  }

  ghost predicate RankNeverRises(hs: seq<Handler>, s: State, actions: seq<Action>, t: string, key: string)
    requires |s.phases| == |hs|
    decreases |actions|
  {
    actions != [] ==>
      var s' := Act(hs, s, actions[0]);
      && StoredRank(s'.db, t, key) <= StoredRank(s.db, t, key)
      && RankNeverRises(hs, s', actions[1..], t, key)
  }

  /** At no point a handler that had read the record before it was completed starts or pauses it. */
  ghost predicate NoneRevives(hs: seq<Handler>, s: State, actions: seq<Action>, t: string, key: string)
    requires |s.phases| == |hs|
    decreases |actions|
  {
    actions != [] ==>
      && !(IsCompleted(s.db, t, key) && IsStaleWrite(hs, s, actions[0], t, key))
      && NoneRevives(hs, Act(hs, s, actions[0]), actions[1..], t, key)
  }

  /**
   * Over every schedule, the rank never rises if and only if nobody revives a
   * completed record; overlapping handlers do no other harm to the lifecycle.
   */
  lemma {:induction false} RankNeverRisesExactlyWhen(
    hs: seq<Handler>, s: State, actions: seq<Action>, t: string, key: string, e: Experiment)
    requires Good(hs, s, t) && AllResemble(hs, s, t, key, e)
    requires forall a <- actions :: LeavesAlone(a, t, key)
    ensures RankNeverRises(hs, s, actions, t, key) <==> NoneRevives(hs, s, actions, t, key)
    decreases |actions|
  {
    if actions != [] {
      assert |s.phases| == |hs|;
      hide Act, Good, AllResemble, LeavesAlone, IsCompleted, IsStaleWrite, StoredRank;
      ActKeepsGood(hs, s, actions[0], t, key);
      ActKeepsResemblance(hs, s, actions[0], t, key, e);
      RankRisesExactlyWhen(hs, s, actions[0], t, key, e);
      RankNeverRisesExactlyWhen(hs, Act(hs, s, actions[0]), actions[1..], t, key, e);
    }
  }
}
