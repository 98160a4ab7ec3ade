/** The fan-out publisher: one goroutine per publisher, a wait group, and a shared slice of errors. */
module Fanout {
  import opened Options

  type Error = string

  /** errors.Join: the errors that are not nil, in order; nil when there are none. */
  function Join(errs: seq<Option<Error>>): Option<seq<Error>> {
    var present := Present(errs);
    if present == [] then None else Some(present)
  }

  function Present(errs: seq<Option<Error>>): seq<Error> {
    if errs == [] then []
    else (if errs[0].Some? then [errs[0].value] else []) + Present(errs[1..])
  }

  /** The joined error is nil exactly when every publisher succeeded. */
  lemma {:induction false} NilExactlyWhenAllSucceed(errs: seq<Option<Error>>)
    ensures Join(errs).None? <==> forall i :: 0 <= i < |errs| ==> errs[i].None?
    decreases |errs|
  {
    if errs != [] {
      NilExactlyWhenAllSucceed(errs[1..]);
      assert errs == [errs[0]] + errs[1..];
    }
  }

  lemma {:induction false} PresentSnoc(errs: seq<Option<Error>>, e: Option<Error>)
    ensures Present(errs + [e]) == Present(errs) + (if e.Some? then [e.value] else [])
    decreases |errs|
  {
    if errs == [] {
      assert errs + [e] == [e];
    } else {
      var longer := errs + [e];
      PresentSnoc(errs[1..], e);
      assert longer[1..] == errs[1..] + [e] && longer[0] == errs[0];
      var head := if errs[0].Some? then [errs[0].value] else [];
      assert Present(errs) == head + Present(errs[1..]);
      assert Present(longer) == head + Present(longer[1..]);
    }
  }

  /** The joined errors are those of all publishers that failed, once each and in the order of the publishers. */
  lemma {:induction false} JoinedInOrder(errs: seq<Option<Error>>) returns (places: seq<nat>)
    ensures |places| == |Present(errs)|
    ensures forall k :: 0 <= k < |places| ==> places[k] < |errs| && errs[places[k]] == Some(Present(errs)[k])
    ensures forall j, k :: 0 <= j < k < |places| ==> places[j] < places[k]
    ensures forall i :: 0 <= i < |errs| && errs[i].Some? ==> i in places
    decreases |errs|
  {
    places := [];
    if errs != [] {
      var n := |errs| - 1;
      var before := errs[..n];
      places := JoinedInOrder(before);
      assert errs == before + [errs[n]];
      PresentSnoc(before, errs[n]);
      hide Present;
      if errs[n].Some? {
        ghost var earlier := places;
        places := places + [n];
        assert n == places[|earlier|];
        assert forall i :: i in earlier ==> i in places;
      }
      forall i | 0 <= i < |errs| && errs[i].Some?
        ensures i in places
      {
        assert i < n ==> before[i] == errs[i];
      }
    }
  }

  // ---- Publish as a concurrent system ----

  /** How far the goroutine of one publisher has come. */
  datatype Phase = Unspawned | Spawned | Called(result: Option<Error>) | Written | Finished

  datatype State = State(
    spawned: nat,
    phases: seq<Phase>,
    errs: seq<Option<Error>>,
    waiting: int,
    delivered: seq<nat>,
    joined: Option<Option<seq<Error>>>)

  /** The steps of the caller (Spawn, Wait) and of goroutine i. */
  datatype Action = Spawn | Call(i: nat) | Write(i: nat) | Finish(i: nat) | Wait

  function Start(n: nat): State {
    State(0, seq(n, _ => Unspawned), seq(n, _ => None), 0, seq(n, _ => 0), None)
  }

  predicate WellSized(s: State) {
    |s.errs| == |s.delivered| == |s.phases| && s.spawned <= |s.phases|
  }

  predicate Enabled(s: State, a: Action)
    requires WellSized(s)
  {
    match a
    case Spawn => s.spawned < |s.phases| && s.phases[s.spawned].Unspawned?
    case Call(i) => i < |s.phases| && s.phases[i].Spawned?
    case Write(i) => i < |s.phases| && s.phases[i].Called?
    case Finish(i) => i < |s.phases| && s.phases[i].Written?
    case Wait => s.spawned == |s.phases| && s.waiting == 0 && s.joined.None?
  }

  /** What publisher i answers to the event. */
  type Outcomes = nat -> Option<Error>

  /** The answers of n publishers, in the order of the publishers. */
  function InIndexOrder(n: nat, outcomes: Outcomes): (r: seq<Option<Error>>)
    ensures |r| == n && forall i :: 0 <= i < n ==> r[i] == outcomes(i)
  {
    seq(n, (i: nat) => outcomes(i))
  }

  function Do(s: State, a: Action, outcomes: Outcomes): State
    requires WellSized(s) && Enabled(s, a)
  {
    match a
    case Spawn => s.(spawned := s.spawned + 1, waiting := s.waiting + 1, phases := s.phases[s.spawned := Spawned])
    case Call(i) =>
      s.(phases := s.phases[i := Called(outcomes(i))], delivered := s.delivered[i := s.delivered[i] + 1])
    case Write(i) => s.(phases := s.phases[i := Written], errs := s.errs[i := s.phases[i].result])
    case Finish(i) => s.(phases := s.phases[i := Finished], waiting := s.waiting - 1)
    case Wait => s.(joined := Some(Join(s.errs)))
  }

  /** How many goroutines the wait group still counts. */
  function Running(phases: seq<Phase>): nat {
    if phases == [] then 0
    else (if phases[0].Unspawned? || phases[0].Finished? then 0 else 1) + Running(phases[1..])
  }

  lemma {:induction false} RunningUpdate(phases: seq<Phase>, i: nat, p: Phase)
    requires i < |phases|
    ensures Running(phases[i := p]) ==
            Running(phases) - (if phases[i].Unspawned? || phases[i].Finished? then 0 else 1)
                            + (if p.Unspawned? || p.Finished? then 0 else 1)
    decreases i
  {
    if i == 0 {
      assert phases[0 := p][1..] == phases[1..];
    } else {
      assert phases[i := p][1..] == phases[1..][i - 1 := p];
      RunningUpdate(phases[1..], i - 1, p);
    }
  }

  lemma {:induction false} NoneRunning(phases: seq<Phase>)
    requires Running(phases) == 0
    ensures forall i :: 0 <= i < |phases| ==> phases[i].Unspawned? || phases[i].Finished?
    decreases |phases|
  {
    if phases != [] {
      NoneRunning(phases[1..]);
      assert phases == [phases[0]] + phases[1..];
    }
  }

  /** What each goroutine has done so far. */
  predicate Tracks(s: State, i: nat, outcomes: Outcomes)
    requires WellSized(s) && i < |s.phases|
  {
    && (s.phases[i].Unspawned? <==> i >= s.spawned)
    && s.delivered[i] == (if s.phases[i].Unspawned? || s.phases[i].Spawned? then 0 else 1)
    && (s.phases[i].Called? ==> s.phases[i].result == outcomes(i))
    && s.errs[i] == (if s.phases[i].Written? || s.phases[i].Finished? then outcomes(i) else None)
  }

  ghost predicate Inv(s: State, outcomes: Outcomes) {
    && WellSized(s)
    && s.waiting == Running(s.phases)
    && (forall i :: 0 <= i < |s.phases| ==> Tracks(s, i, outcomes))
    && (s.joined.Some? ==> AllFinished(s) && s.joined.value == Join(s.errs))
  }

  predicate AllFinished(s: State) {
    s.spawned == |s.phases| && forall i :: 0 <= i < |s.phases| ==> s.phases[i].Finished?
  }

  lemma {:induction false} NothingRunsAtStart(n: nat)
    ensures Running(seq(n, _ => Unspawned)) == 0
    decreases n
  {
    if n > 0 {
      assert seq(n, _ => Unspawned)[1..] == seq(n - 1, _ => Unspawned);
      NothingRunsAtStart(n - 1);
    }
  }

  lemma StartInv(n: nat, outcomes: Outcomes)
    ensures Inv(Start(n), outcomes)
  {
    NothingRunsAtStart(n);
  }

  lemma StepInv(s: State, a: Action, outcomes: Outcomes)
    requires Inv(s, outcomes) && Enabled(s, a)
    ensures Inv(Do(s, a, outcomes), outcomes)
  {
    match a {
      case Spawn => RunningUpdate(s.phases, s.spawned, Spawned);
      case Call(i) => RunningUpdate(s.phases, i, Called(outcomes(i)));
      case Write(i) => RunningUpdate(s.phases, i, Written);
      case Finish(i) => RunningUpdate(s.phases, i, Finished);
      case Wait => NoneRunning(s.phases);
    }
    var t := Do(s, a, outcomes);
    forall j | 0 <= j < |t.phases|
      ensures Tracks(t, j, outcomes)
    {
      assert Tracks(s, j, outcomes);
    }
    if t.joined.Some? {
      forall j | 0 <= j < |t.phases|
        ensures t.phases[j].Finished?
      {
        assert Tracks(s, j, outcomes);
      }
    }
  }

  /** A schedule takes enabled steps in any order; the others are skipped. */
  function Schedule(s: State, actions: seq<Action>, outcomes: Outcomes): State
    requires WellSized(s)
    decreases |actions|
  {
    if actions == [] then s
    else if Enabled(s, actions[0]) then Schedule(Do(s, actions[0], outcomes), actions[1..], outcomes)
    else Schedule(s, actions[1..], outcomes)
  }

  lemma {:induction false} ScheduleInv(s: State, actions: seq<Action>, outcomes: Outcomes)
    requires Inv(s, outcomes)
    ensures Inv(Schedule(s, actions, outcomes), outcomes)
    ensures |Schedule(s, actions, outcomes).phases| == |s.phases|
    decreases |actions|
  {
    if actions != [] {
      if Enabled(s, actions[0]) {
        StepInv(s, actions[0], outcomes);
        hide Inv;
        ScheduleInv(Do(s, actions[0], outcomes), actions[1..], outcomes);
      } else {
        ScheduleInv(s, actions[1..], outcomes);
      }
    }
  }

  /**
   * Schedule independence: however the goroutines are interleaved, by the time
   * Publish returns every publisher has received the event exactly once, and the
   * error is the join of all outcomes in the order of the publishers.
   */
  lemma PublishIsScheduleIndependent(n: nat, actions: seq<Action>, outcomes: Outcomes)
    ensures WellSized(Start(n))
    ensures var s := Schedule(Start(n), actions, outcomes);
            s.joined.Some? ==>
              && s.joined.value == Join(InIndexOrder(n, outcomes))
              && |s.delivered| == n && forall i :: 0 <= i < n ==> s.delivered[i] == 1
  {
    StartInv(n, outcomes);
    ScheduleInv(Start(n), actions, outcomes);
    var s := Schedule(Start(n), actions, outcomes);
    if s.joined.Some? {
      forall i | 0 <= i < n
        ensures s.delivered[i] == 1 && s.errs[i] == outcomes(i)
      {
        assert Tracks(s, i, outcomes) && s.phases[i].Finished?;
      }
      assert s.errs == InIndexOrder(n, outcomes);
    }
  }

  // ---- No failure stops another publisher ----

  function StepsLeft(p: Phase): nat {
    match p
    case Unspawned => 4
    case Spawned => 3
    case Called(_) => 2
    case Written => 1
    case Finished => 0
  }

  function TotalLeft(phases: seq<Phase>): nat {
    if phases == [] then 0 else StepsLeft(phases[0]) + TotalLeft(phases[1..])
  }

  lemma {:induction false} LeftUpdate(phases: seq<Phase>, i: nat, p: Phase)
    requires i < |phases|
    ensures TotalLeft(phases[i := p]) == TotalLeft(phases) - StepsLeft(phases[i]) + StepsLeft(p)
    decreases i
  {
    if i == 0 {
      assert phases[0 := p][1..] == phases[1..];
    } else {
      assert phases[i := p][1..] == phases[1..][i - 1 := p];
      LeftUpdate(phases[1..], i - 1, p);
    }
  }

  function Left(s: State): nat {
    TotalLeft(s.phases) + if s.joined.None? then 1 else 0
  }

  /** Every enabled step brings Publish nearer to its return, whatever the outcomes. */
  lemma StepsMakeProgress(s: State, a: Action, outcomes: Outcomes)
    requires Inv(s, outcomes) && Enabled(s, a)
    ensures Left(Do(s, a, outcomes)) < Left(s)
  {
    match a
    case Spawn => LeftUpdate(s.phases, s.spawned, Spawned);
    case Call(i) => LeftUpdate(s.phases, i, Called(outcomes(i)));
    case Write(i) => LeftUpdate(s.phases, i, Written);
    case Finish(i) => LeftUpdate(s.phases, i, Finished);
    case Wait =>
  }

  /** Until Publish has returned some step is enabled: there is no deadlock. */
  lemma NeverStuck(s: State, outcomes: Outcomes) returns (a: Action)
    requires Inv(s, outcomes) && s.joined.None?
    ensures Enabled(s, a)
  {
    if s.spawned < |s.phases| {
      assert Tracks(s, s.spawned, outcomes);
      a := Spawn;
    } else if i :| 0 <= i < |s.phases| && !s.phases[i].Finished? {
      assert Tracks(s, i, outcomes);
      a := if s.phases[i].Spawned? then Call(i) else if s.phases[i].Called? then Write(i) else Finish(i);
    } else {
      AllFinishedRunsNone(s.phases);
      a := Wait;
    }
  }

  lemma {:induction false} AllFinishedRunsNone(phases: seq<Phase>)
    requires forall i :: 0 <= i < |phases| ==> phases[i].Finished?
    ensures Running(phases) == 0
    decreases |phases|
  {
    if phases != [] {
      AllFinishedRunsNone(phases[1..]);
    }
  }

  // ---- The code, for one completion order ----

  /** Publish, with the goroutines completing in the given order. */
  method Publish(n: nat, outcomes: Outcomes, order: seq<nat>) returns (err: Option<seq<Error>>)
    requires |order| == n
    requires forall i :: 0 <= i < n ==> i in order
    requires forall i <- order :: i < n
    ensures err == Join(InIndexOrder(n, outcomes))
  {
    if n == 0 {
      assert InIndexOrder(n, outcomes) == [];
      return None;
    }
    var errs := new Option<Error>[n](_ => None);
    for k := 0 to |order|
      invariant forall i :: 0 <= i < n ==> errs[i] == if i in order[..k] then outcomes(i) else None
    {
      var idx := order[k];
      assert idx in order;
      errs[idx] := outcomes(idx);
      assert forall i :: i in order[..k + 1] <==> i in order[..k] || i == idx;
    }
    assert order[..|order|] == order;
    assert forall i :: 0 <= i < n ==> errs[..][i] == outcomes(i);
    assert errs[..] == InIndexOrder(n, outcomes);
    err := Join(errs[..]);
  }

  /** Close goes through all publishers in order and keeps what failed. */
  method Close(results: seq<Option<Error>>) returns (err: Option<seq<Error>>)
    ensures err == Join(results)
  {
    var errs: seq<Error> := [];
    for i := 0 to |results|
      invariant errs == Present(results[..i])
    {
      assert results[..i + 1] == results[..i] + [results[i]];
      PresentSnoc(results[..i], results[i]);
      if results[i].Some? {
        errs := errs + [results[i].value];
      }
    }
    assert results[..|results|] == results;
    err := if errs == [] then None else Some(errs);
  }
}
