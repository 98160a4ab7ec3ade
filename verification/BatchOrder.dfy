/** The order of the keys in a batch does not matter. */
module BatchOrder {
  import opened Options
  import opened Records
  import opened Keys
  import opened KeyConflicts
  import opened OwnRecords
  import opened SubjectKeys
  import opened F = FlatStore
  import opened T = TenantStore
  import opened Rules
  import opened Evaluation
  import opened Stickiness

  // ---- One after the other ----

  /** The store after the first k evaluations of a batch. */
  function DbAt(cfg: Config, db: Db, items: seq<Item>, ctx: EvaluationContext, k: nat): Db
    requires k <= |items|
  {
    if k == 0 then db
    else Evaluate(cfg, DbAt(cfg, db, items, ctx, k - 1), items[k - 1].key, ctx, items[k - 1].world).0
  }

  lemma {:induction false} DbAtLater(cfg: Config, db: Db, items: seq<Item>, ctx: EvaluationContext, k: nat)
    requires k < |items|
    ensures DbAt(cfg, db, items, ctx, k + 1) ==
            DbAt(cfg, Evaluate(cfg, db, items[0].key, ctx, items[0].world).0, items[1..], ctx, k)
    decreases k
  {
    hide Evaluate;
    if k > 0 {
      DbAtLater(cfg, db, items, ctx, k - 1);
    }
  }

  /** Result k is that of key k, on the store that the k evaluations before have left, whatever failed in them. */
  lemma {:induction false} BatchInOrder(
    cfg: Config, db: Db, items: seq<Item>, ctx: EvaluationContext, k: nat)
    requires k < |items|
    ensures BatchResults(cfg, db, items, ctx)[k] ==
            Evaluate(cfg, DbAt(cfg, db, items, ctx, k), items[k].key, ctx, items[k].world).1
    decreases k
  {
    hide Evaluate;
    if k > 0 {
      DbAtLater(cfg, db, items, ctx, k - 1);
      hide DbAt;
      BatchInOrder(cfg, Evaluate(cfg, db, items[0].key, ctx, items[0].world).0, items[1..], ctx, k - 1);
    }
  }

  /** And the store in the end is what the last one has left. */
  lemma {:induction false} BatchLeaves(cfg: Config, db: Db, items: seq<Item>, ctx: EvaluationContext)
    ensures BatchDb(cfg, db, items, ctx) == DbAt(cfg, db, items, ctx, |items|)
    decreases |items|
  {
    hide Evaluate;
    if items != [] {
      DbAtLater(cfg, db, items, ctx, |items| - 1);
      hide DbAt;
      BatchLeaves(cfg, Evaluate(cfg, db, items[0].key, ctx, items[0].world).0, items[1..], ctx);
    }
  }

  // ---- The conditions ----

  /** Every call to the stores succeeds, at a time between lo and hi. */
  predicate Smooth(w: World, lo: int, hi: int) {
    lo <= w.now <= hi && w.flagOk && w.readOk && w.saved
  }

  ghost predicate SmoothItems(items: seq<Item>, keys: iset<string>, lo: int, hi: int) {
    forall item <- items :: item.key in keys && Smooth(item.world, lo, hi)
  }

  /** What the reader is told about the subject's assignment for flag k. */
  function Seen(db: Db, ctx: EvaluationContext, k: string, now: int): Option<EvalResult> {
    var r := DoGetAssignment(db, now, ctx.tenantId, ctx.subjectId, k);
    if r.AssignmentIs? && r.assignment.Some?
    then Some(EvalResult(r.assignment.value.enabled, r.assignment.value.variant)) else None
  }

  function FlagOf(db: Db, ctx: EvaluationContext, k: string, now: int): Option<FlagDefinition> {
    var got := DoGetFlag(db, now, ctx.tenantId, k);
    if got.FlagIs? then got.flag else None
  }

  /** Neither the flag of k nor the subject's assignment for it expires between lo and hi. */
  ghost predicate Steady(db: Db, ctx: EvaluationContext, k: string, lo: int, hi: int) {
    forall now: int :: lo <= now <= hi ==>
      && DoGetFlag(db, now, ctx.tenantId, k) == DoGetFlag(db, lo, ctx.tenantId, k)
      && Seen(db, ctx, k, now) == Seen(db, ctx, k, lo)
  }

  /** A flag that answers are stored for is found under the key that it has itself. */
  predicate UnderOwnKey(f: Option<FlagDefinition>, k: string) {
    f.Some? && f.value.enabled && f.value.semantics == SEMANTICS_PERSISTENT ==> f.value.key == k
  }

  /** The keys that a batch may ask for: they do not expire meanwhile, and their flags are under their own keys. */
  ghost predicate Orderly(db: Db, ctx: EvaluationContext, keys: iset<string>, lo: int, hi: int) {
    && lo <= hi
    && forall k <- keys ::
         && Steady(db, ctx, k, lo, hi)
         && UnderOwnKey(FlagOf(db, ctx, k, lo), k)
  }

  /** In the states that OwnRecords is about, flags are under their own keys. */
  lemma OwnFlagsSuffice(db: Db, ctx: EvaluationContext, k: string, now: int)
    requires OwnFlags(db, ctx.tenantId)
    ensures UnderOwnKey(FlagOf(db, ctx, k, now), k)
  {
    hide Render;
    assert OwnFlag(Lookup(db, Render(FlagPath(ctx.tenantId, k))), k);
  }

  predicate IsRandom(db: Db, ctx: EvaluationContext, k: string, now: int) {
    FlagOf(db, ctx, k, now).Some? && FlagOf(db, ctx, k, now).value.semantics == SEMANTICS_RANDOM
  }

  // ---- One evaluation ----

  function Ideal(now: int): World {
    World(now, true, true, true, _ => 0)
  }

  /** The answer for k alone, on the store as it is. */
  function AnswerFor(cfg: Config, db: Db, ctx: EvaluationContext, k: string, now: int): EvaluationResult {
    Evaluate(cfg, db, k, ctx, Ideal(now)).1
  }

  /** The flag for k is there, enabled and persistent, and there is an assignment store. */
  predicate Persists(cfg: Config, db: Db, ctx: EvaluationContext, k: string, now: int) {
    var f := FlagOf(db, ctx, k, now);
    cfg.persistent && f.Some? && f.value.enabled && f.value.semantics == SEMANTICS_PERSISTENT
  }

  /** What is stored for k after a batch from db, given whether k was among its keys. */
  function StoredAfter(
    cfg: Config, db: Db, ctx: EvaluationContext, k: string, asked: bool, now: int): Option<EvalResult>
  {
    if Seen(db, ctx, k, now).None? && asked && Persists(cfg, db, ctx, k, now)
    then Some(OutcomeOf(AnswerFor(cfg, db, ctx, k, now)))
    else Seen(db, ctx, k, now)
  }

  lemma PersistentIsNotRandom(cfg: Config, db: Db, ctx: EvaluationContext, k: string, now: int)
    requires Persists(cfg, db, ctx, k, now)
    ensures !IsRandom(db, ctx, k, now)
  {
    assert SEMANTICS_PERSISTENT[0] != SEMANTICS_RANDOM[0];
  }

  /** The answer depends on the flag and on what is seen of the assignment, and on nothing else. */
  lemma AnswerFromSight(cfg: Config, db: Db, db': Db, ctx: EvaluationContext, k: string, w: World, w': World)
    requires w.flagOk && w.readOk && w'.flagOk && w'.readOk
    requires DoGetFlag(db, w.now, ctx.tenantId, k) == DoGetFlag(db', w'.now, ctx.tenantId, k)
    requires UnderOwnKey(FlagOf(db, ctx, k, w.now), k)
    requires !IsRandom(db, ctx, k, w.now) && Seen(db, ctx, k, w.now) == Seen(db', ctx, k, w'.now)
    ensures Evaluate(cfg, db, k, ctx, w).1 == Evaluate(cfg, db', k, ctx, w').1
  {
    var f := FlagOf(db, ctx, k, w.now);
    if f.Some? {
      DrawsDoNotMatter(cfg.lib, f.value, ctx, w.draws, w'.draws);
    }
    hide DoGetFlag, DoGetAssignment, DoSaveAssignment, EvaluateRules;
  }

  /** Between lo and hi the answer is always the same. */
  lemma AnswerAnyTime(
    cfg: Config, db: Db, ctx: EvaluationContext, k: string, w: World, keys: iset<string>, lo: int, hi: int)
    requires Orderly(db, ctx, keys, lo, hi) && k in keys && Smooth(w, lo, hi) && !IsRandom(db, ctx, k, lo)
    ensures Evaluate(cfg, db, k, ctx, w).1 == AnswerFor(cfg, db, ctx, k, lo)
  {
    assert Steady(db, ctx, k, lo, hi);
    hide DoGetFlag, Seen, Evaluate;
    AnswerFromSight(cfg, db, db, ctx, k, w, Ideal(lo));
  }

  /** A save for the subject changes what is seen for its flag, and nothing else of the subject or any flag. */
  lemma FlagsUntouched(db: Db, ctx: EvaluationContext, a: Assignment, now: int, k: string, at: int)
    requires a.subjectId == ctx.subjectId
    ensures var db' := DoSaveAssignment(db, now, ctx.tenantId, a).0;
            DoGetFlag(db', at, ctx.tenantId, k) == DoGetFlag(db, at, ctx.tenantId, k)
  {
    if Render(FlagPath(ctx.tenantId, k)) == Render(AssignmentPath(ctx.tenantId, a.subjectId, a.flagKey)) {
      FamiliesApart(FlagPath(ctx.tenantId, k), AssignmentPath(ctx.tenantId, a.subjectId, a.flagKey));
    }
    hide Render;
  }

  lemma OtherSightUntouched(db: Db, ctx: EvaluationContext, a: Assignment, now: int, k: string, at: int)
    requires a.subjectId == ctx.subjectId && k != a.flagKey
    ensures Seen(DoSaveAssignment(db, now, ctx.tenantId, a).0, ctx, k, at) == Seen(db, ctx, k, at)
  {
    AssignmentsShareKeyExactlyWhen(ctx.tenantId, ctx.subjectId, a.flagKey, ctx.subjectId, k);
    if ctx.subjectId + (":" + a.flagKey) == ctx.subjectId + (":" + k) {
      SameTails(ctx.subjectId, a.flagKey, k);
    }
    hide Render;
  }

  lemma SavedIsSeen(db: Db, ctx: EvaluationContext, a: Assignment, now: int, at: int)
    requires a.subjectId == ctx.subjectId && a.expiresAt <= 0
    ensures Seen(DoSaveAssignment(db, now, ctx.tenantId, a).0, ctx, a.flagKey, at) ==
            Some(EvalResult(a.enabled, a.variant))
  {
    SaveHere(db, ctx.tenantId, a, now);
    var db' := DoSaveAssignment(db, now, ctx.tenantId, a).0;
    PinnedIsRead(db', ctx.tenantId, ctx.subjectId, a.flagKey, EvalResult(a.enabled, a.variant), at);
    hide DoSaveAssignment, DoGetAssignment, Pinned;
  }

  /** Whether an evaluation saves, and what. */
  lemma WhatIsSaved(cfg: Config, db: Db, item: Item, ctx: EvaluationContext, keys: iset<string>, lo: int, hi: int)
    returns (a: Assignment)
    requires Orderly(db, ctx, keys, lo, hi) && item.key in keys && Smooth(item.world, lo, hi)
    ensures a.subjectId == ctx.subjectId && a.flagKey == item.key && a.expiresAt == 0
    ensures var saves := Persists(cfg, db, ctx, item.key, lo) && Seen(db, ctx, item.key, lo).None?;
            && (saves ==> EvalResult(a.enabled, a.variant) == OutcomeOf(AnswerFor(cfg, db, ctx, item.key, lo)))
            && Evaluate(cfg, db, item.key, ctx, item.world).0 ==
               if saves then DoSaveAssignment(db, item.world.now, ctx.tenantId, a).0 else db
  {
    var k, w := item.key, item.world;
    assert Steady(db, ctx, k, lo, hi);
    if Persists(cfg, db, ctx, k, lo) {
      PersistentIsNotRandom(cfg, db, ctx, k, lo);
      AnswerAnyTime(cfg, db, ctx, k, w, keys, lo, hi);
    }
    var r := Evaluate(cfg, db, k, ctx, w).1;
    a := Assignment(ctx.subjectId, k, r.enabled, r.variant, Unix(w.now), 0);
    hide Steady, DoGetFlag, DoGetAssignment, DoSaveAssignment;
    var f := FlagOf(db, ctx, k, w.now);
    if f.Some? {
      AnswersOwnKey(cfg.lib, f.value, ctx, w.draws);
    }
    hide EvaluateRules;
  }

  /** One evaluation keeps every flag, and stores what it should for its own key and nothing for other keys. */
  lemma OneEvaluation(cfg: Config, db: Db, item: Item, ctx: EvaluationContext, keys: iset<string>, lo: int, hi: int)
    requires Orderly(db, ctx, keys, lo, hi) && item.key in keys && Smooth(item.world, lo, hi)
    ensures var db' := Evaluate(cfg, db, item.key, ctx, item.world).0;
            && Orderly(db', ctx, keys, lo, hi)
            && (forall k, now :: DoGetFlag(db', now, ctx.tenantId, k) == DoGetFlag(db, now, ctx.tenantId, k))
            && forall k :: Seen(db', ctx, k, lo) == StoredAfter(cfg, db, ctx, k, k == item.key, lo)
  {
    var w, db' := item.world, Evaluate(cfg, db, item.key, ctx, item.world).0;
    var a := WhatIsSaved(cfg, db, item, ctx, keys, lo, hi);
    var saves := Persists(cfg, db, ctx, item.key, lo) && Seen(db, ctx, item.key, lo).None?;
    hide Evaluate, DoSaveAssignment, DoGetFlag, Seen, Persists;
    forall k, now
      ensures DoGetFlag(db', now, ctx.tenantId, k) == DoGetFlag(db, now, ctx.tenantId, k)
    {
      if saves {
        FlagsUntouched(db, ctx, a, w.now, k, now);
      }
    }
    forall k, now
      ensures saves && k == item.key ==> Seen(db', ctx, k, now) == StoredAfter(cfg, db, ctx, k, true, lo)
      ensures !(saves && k == item.key) ==> Seen(db', ctx, k, now) == Seen(db, ctx, k, now)
    {
      if saves && k == item.key {
        SavedIsSeen(db, ctx, a, w.now, now);
      } else if saves {
        OtherSightUntouched(db, ctx, a, w.now, k, now);
      }
    }
    forall k <- keys
      ensures Steady(db', ctx, k, lo, hi) && FlagOf(db', ctx, k, lo) == FlagOf(db, ctx, k, lo)
    {
      assert Steady(db, ctx, k, lo, hi);
    }
  }

  lemma StoredAnswer(cfg: Config, db: Db, ctx: EvaluationContext, k: string, now: int)
    requires Persists(cfg, db, ctx, k, now) && FlagOf(db, ctx, k, now).value.key == k
    requires Seen(db, ctx, k, now).Some?
    ensures OutcomeOf(AnswerFor(cfg, db, ctx, k, now)) == Seen(db, ctx, k, now).value
  {
    hide DoGetFlag, DoGetAssignment, EvaluateRules;
  }

  /** What is answered and stored for k after one more evaluation. */
  lemma NextAnswers(
    cfg: Config, db: Db, item: Item, ctx: EvaluationContext, keys: iset<string>, lo: int, hi: int, k: string)
    requires Orderly(db, ctx, keys, lo, hi) && item.key in keys && Smooth(item.world, lo, hi)
    requires k in keys && !IsRandom(db, ctx, k, lo)
    ensures var db' := Evaluate(cfg, db, item.key, ctx, item.world).0;
            && OutcomeOf(AnswerFor(cfg, db', ctx, k, lo)) == OutcomeOf(AnswerFor(cfg, db, ctx, k, lo))
            && (k != item.key ==> AnswerFor(cfg, db', ctx, k, lo) == AnswerFor(cfg, db, ctx, k, lo))
  {
    var db' := Evaluate(cfg, db, item.key, ctx, item.world).0;
    OneEvaluation(cfg, db, item, ctx, keys, lo, hi);
    assert UnderOwnKey(FlagOf(db, ctx, k, lo), k);
    hide Orderly, DoGetFlag, Seen, Evaluate;
    assert DoGetFlag(db', lo, ctx.tenantId, k) == DoGetFlag(db, lo, ctx.tenantId, k);
    assert Seen(db', ctx, k, lo) == StoredAfter(cfg, db, ctx, k, k == item.key, lo);
    if Seen(db', ctx, k, lo) == Seen(db, ctx, k, lo) {
      AnswerFromSight(cfg, db, db', ctx, k, Ideal(lo), Ideal(lo));
    } else {
      StoredAnswer(cfg, db', ctx, k, lo);
    }
  }

  lemma NextStored(
    cfg: Config, db: Db, item: Item, ctx: EvaluationContext, keys: iset<string>, lo: int, hi: int,
    k: string, asked: bool)
    requires Orderly(db, ctx, keys, lo, hi) && item.key in keys && Smooth(item.world, lo, hi)
    requires asked ==> k in keys
    ensures var db' := Evaluate(cfg, db, item.key, ctx, item.world).0;
            StoredAfter(cfg, db', ctx, k, asked, lo) == StoredAfter(cfg, db, ctx, k, asked || k == item.key, lo)
  {
    var db' := Evaluate(cfg, db, item.key, ctx, item.world).0;
    OneEvaluation(cfg, db, item, ctx, keys, lo, hi);
    if Persists(cfg, db, ctx, k, lo) && (asked || k == item.key) {
      PersistentIsNotRandom(cfg, db, ctx, k, lo);
      NextAnswers(cfg, db, item, ctx, keys, lo, hi, k);
    }
    hide Orderly, DoGetFlag, Seen, Evaluate, AnswerFor;
    assert DoGetFlag(db', lo, ctx.tenantId, k) == DoGetFlag(db, lo, ctx.tenantId, k);
    assert Seen(db', ctx, k, lo) == StoredAfter(cfg, db, ctx, k, k == item.key, lo);
  }

  ghost predicate Asked(items: seq<Item>, k: string) {
    exists i :: 0 <= i < |items| && items[i].key == k
  }

  ghost predicate FirstOfItsKey(items: seq<Item>, i: nat)
    requires i < |items|
  {
    forall j :: 0 <= j < i ==> items[j].key != items[i].key
  }

  lemma AskedStep(items: seq<Item>, k: string)
    requires items != []
    ensures Asked(items, k) <==> Asked(items[1..], k) || k == items[0].key
  {
    if Asked(items[1..], k) {
      var i :| 0 <= i < |items[1..]| && items[1..][i].key == k;
      assert items[i + 1].key == k;
    }
    if Asked(items, k) && k != items[0].key {
      var i :| 0 <= i < |items| && items[i].key == k;
      assert items[1..][i - 1].key == k;
    }
  }

  /**
   * Every answer of a batch is, up to its reason, what its key would get alone,
   * unless its flag is random; the first answer for a key is exactly that; and what
   * ends up stored for a key depends only on whether the batch asked for it.
   */
  lemma {:induction false} BatchAnswers(
    cfg: Config, db: Db, items: seq<Item>, ctx: EvaluationContext, keys: iset<string>, lo: int, hi: int)
    requires Orderly(db, ctx, keys, lo, hi) && SmoothItems(items, keys, lo, hi)
    ensures var rs := BatchResults(cfg, db, items, ctx);
            && (forall i :: 0 <= i < |items| && !IsRandom(db, ctx, items[i].key, lo) ==>
                  OutcomeOf(rs[i]) == OutcomeOf(AnswerFor(cfg, db, ctx, items[i].key, lo)))
            && (forall i :: 0 <= i < |items| && !IsRandom(db, ctx, items[i].key, lo) && FirstOfItsKey(items, i) ==>
                  rs[i] == AnswerFor(cfg, db, ctx, items[i].key, lo))
    ensures forall k ::
              Seen(BatchDb(cfg, db, items, ctx), ctx, k, lo) == StoredAfter(cfg, db, ctx, k, Asked(items, k), lo)
    decreases |items|
  {
    hide Orderly, Smooth, Evaluate, AnswerFor, Seen, StoredAfter, Asked, IsRandom;
    if items == [] {
      forall k
        ensures Seen(db, ctx, k, lo) == StoredAfter(cfg, db, ctx, k, Asked(items, k), lo)
      {
        NothingAsked(cfg, db, items, ctx, k, lo);
      }
    } else {
      var item, rest := items[0], items[1..];
      var db' := Evaluate(cfg, db, item.key, ctx, item.world).0;
      assert item.key in keys && Smooth(item.world, lo, hi);
      OneEvaluation(cfg, db, item, ctx, keys, lo, hi);
      BatchAnswers(cfg, db', rest, ctx, keys, lo, hi);
      forall i | 0 <= i < |items| && !IsRandom(db, ctx, items[i].key, lo)
        ensures var rs := BatchResults(cfg, db, items, ctx);
                && OutcomeOf(rs[i]) == OutcomeOf(AnswerFor(cfg, db, ctx, items[i].key, lo))
                && (FirstOfItsKey(items, i) ==> rs[i] == AnswerFor(cfg, db, ctx, items[i].key, lo))
      {
        BatchAnswer(cfg, db, items, ctx, keys, lo, hi, i);
      }
      forall k
        ensures Seen(BatchDb(cfg, db, items, ctx), ctx, k, lo) == StoredAfter(cfg, db, ctx, k, Asked(items, k), lo)
      {
        AskedStep(items, k);
        AskedIsKey(rest, keys, lo, hi, k);
        NextStored(cfg, db, item, ctx, keys, lo, hi, k, Asked(rest, k));
      }
    }
  }

  lemma AskedIsKey(items: seq<Item>, keys: iset<string>, lo: int, hi: int, k: string)
    requires SmoothItems(items, keys, lo, hi)
    ensures Asked(items, k) ==> k in keys
  {
  }

  /** One answer of a batch, given those of the rest of it. */
  lemma BatchAnswer(
    cfg: Config, db: Db, items: seq<Item>, ctx: EvaluationContext, keys: iset<string>, lo: int, hi: int, i: nat)
    requires i < |items| && !IsRandom(db, ctx, items[i].key, lo)
    requires Orderly(db, ctx, keys, lo, hi) && SmoothItems(items, keys, lo, hi)
    requires var db' := Evaluate(cfg, db, items[0].key, ctx, items[0].world).0;
             var tail := BatchResults(cfg, db', items[1..], ctx);
             i > 0 && !IsRandom(db', ctx, items[i].key, lo) ==>
               && OutcomeOf(tail[i - 1]) == OutcomeOf(AnswerFor(cfg, db', ctx, items[i].key, lo))
               && (FirstOfItsKey(items[1..], i - 1) ==> tail[i - 1] == AnswerFor(cfg, db', ctx, items[i].key, lo))
    ensures var rs := BatchResults(cfg, db, items, ctx);
            && OutcomeOf(rs[i]) == OutcomeOf(AnswerFor(cfg, db, ctx, items[i].key, lo))
            && (FirstOfItsKey(items, i) ==> rs[i] == AnswerFor(cfg, db, ctx, items[i].key, lo))
  {
    var item, rest := items[0], items[1..];
    var db' := Evaluate(cfg, db, item.key, ctx, item.world).0;
    assert item in items && items[i] in items;
    hide Orderly, Smooth, Evaluate, AnswerFor, DoGetFlag, Seen, StoredAfter, BatchDb, FirstOfItsKey, OutcomeOf;
    if i == 0 {
      AnswerAnyTime(cfg, db, ctx, item.key, item.world, keys, lo, hi);
    } else {
      FirstOfRest(items, i);
      NextAnswers(cfg, db, item, ctx, keys, lo, hi, items[i].key);
      OneEvaluation(cfg, db, item, ctx, keys, lo, hi);
      assert DoGetFlag(db', lo, ctx.tenantId, items[i].key) == DoGetFlag(db, lo, ctx.tenantId, items[i].key);
      assert BatchResults(cfg, db, items, ctx)[i] == BatchResults(cfg, db', rest, ctx)[i - 1];
    }
  }

  lemma FirstOfRest(items: seq<Item>, i: nat)
    requires 0 < i < |items|
    ensures FirstOfItsKey(items, i) ==> FirstOfItsKey(items[1..], i - 1) && items[0].key != items[i].key
  {
    assert forall j :: 0 <= j < i ==> items[1..][j] == items[j + 1];
  }

  lemma NothingAsked(cfg: Config, db: Db, items: seq<Item>, ctx: EvaluationContext, k: string, lo: int)
    requires items == []
    ensures Seen(db, ctx, k, lo) == StoredAfter(cfg, db, ctx, k, Asked(items, k), lo)
  {
    hide Seen, AnswerFor;
  }

  ghost predicate Distinct(items: seq<Item>) {
    forall i, j :: 0 <= i < j < |items| ==> items[i].key != items[j].key
  }

  /**
   * Batch order independence: two batches over the same keys, in any order and
   * with any repetitions, give each key whose flag is not random the same enabled
   * and variant, and leave the same stored for every flag; without repetitions the
   * whole answers are equal.
   */
  lemma BatchOrderIndependence(
    cfg: Config, db: Db, items: seq<Item>, others: seq<Item>, ctx: EvaluationContext,
    keys: iset<string>, lo: int, hi: int)
    requires Orderly(db, ctx, keys, lo, hi)
    requires SmoothItems(items, keys, lo, hi) && SmoothItems(others, keys, lo, hi)
    requires forall k :: Asked(items, k) <==> Asked(others, k)
    ensures var rs, qs := BatchResults(cfg, db, items, ctx), BatchResults(cfg, db, others, ctx);
            forall i, j :: 0 <= i < |items| && 0 <= j < |others| && items[i].key == others[j].key
                           && !IsRandom(db, ctx, items[i].key, lo) ==>
              && OutcomeOf(rs[i]) == OutcomeOf(qs[j])
              && (Distinct(items) && Distinct(others) ==> rs[i] == qs[j])
    ensures forall k ::
              Seen(BatchDb(cfg, db, items, ctx), ctx, k, lo) == Seen(BatchDb(cfg, db, others, ctx), ctx, k, lo)
  {
    hide Orderly, Smooth, AnswerFor, Seen, StoredAfter, Asked, BatchResults, BatchDb, OutcomeOf, IsRandom;
    BatchAnswers(cfg, db, items, ctx, keys, lo, hi);
    BatchAnswers(cfg, db, others, ctx, keys, lo, hi);
    if Distinct(items) && Distinct(others) {
      assert forall i :: 0 <= i < |items| ==> FirstOfItsKey(items, i);
      assert forall j :: 0 <= j < |others| ==> FirstOfItsKey(others, j);
    }
  }
}
