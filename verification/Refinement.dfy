/** The flat key space refines the tenant-indexed store, call by call and over whole runs. */
module Refinement {
  import opened Options
  import opened Records
  import opened Keys
  import opened Pagination
  import opened F = FlatStore
  import opened T = TenantStore

  /** Tenant and subject ids that keep the key space unambiguous; all other strings are free. */
  predicate PlainOp(op: Op) {
    && (op.GetAPIKeyByHash? || PlainTenant(op.tenant))
    && (op.SaveAssignment? ==> NoColon(op.assignment.subjectId))
    && (op.GetAssignment? ==> NoColon(op.subjectId))
  }

  // ---- What a call writes ----

  /** The paths that a call may write. */
  predicate Touches(op: Op, p: Path) {
    match op
    case CreateFlag(t, f) => p == FlagPath(t, f.key) || p == FlagKeys(t)
    case UpdateFlag(t, f) => p == FlagPath(t, f.key)
    case DeleteFlag(t, k) => p == FlagPath(t, k) || p == FlagKeys(t)
    case SaveAssignment(t, a) => p == AssignmentPath(t, a.subjectId, a.flagKey)
    case CreateExperiment(t, e) => p == ExperimentPath(t, e.key) || p == ExperimentKeys(t)
    case UpdateExperiment(t, e) => p == ExperimentPath(t, e.key)
    case CreateAPIKey(t, k) => p == ApiKeyPath(t, k.id) || p == ApiKeyIds(t) || p == HashPath(k.keyHash)
    case RevokeAPIKey(t, id) => p == ApiKeyPath(t, id)
    case _ => false
  }

  function Slot(db: Db, p: Path): Option<Entry> {
    Lookup(db, Render(p))
  }

  lemma Apart(p: Path, q: Path)
    requires Plain(p) && Plain(q) && p != q
    ensures Render(p) != Render(q)
  {
    if Render(p) == Render(q) {
      RenderIsInjective(p, q);
    }
  }

  lemma SetFrame(db: Db, written: Path, doc: Doc, deadline: Option<int>, p: Path)
    requires Plain(written) && Plain(p) && p != written
    ensures var db' := Set(db, Render(written), doc, deadline);
            Slot(db', p) == Slot(db, p) && Slot(db', written) == Some(Data(doc, deadline))
  {
    hide Render;
    Apart(p, written);
  }

  lemma CreationLeaves(db: Db, now: int, record: string, doc: Doc, index: string, member: string, key: string)
    requires record != key && index != key
    ensures var db1 := Set(db, record, doc, None);
            var added := SAdd(db1, now, index, member);
            Lookup(db1, key) == Lookup(db, key) && (added.Some? ==> Lookup(added.value, key) == Lookup(db, key))
  {
  }

  lemma DeletionLeaves(db: Db, now: int, record: string, index: string, member: string, key: string)
    requires record != key && index != key
    ensures var db1 := Del(db, record);
            var removed := SRem(db1, now, index, member);
            Lookup(db1, key) == Lookup(db, key) && (removed.Some? ==> Lookup(removed.value, key) == Lookup(db, key))
  {
  }

  /** A call changes nothing but the keys of the paths it names, whatever the ids. */
  lemma StepLeaves(db: Db, op: Op, now: int, key: string)
    requires forall q: Path :: Touches(op, q) ==> Render(q) != key
    ensures Lookup(Step(db, op, now).0, key) == Lookup(db, key)
  {
    hide Render, SAdd, SRem, GetFlagDoc, GetExperimentDoc, GetApiKeyDoc;
    match op
    case CreateFlag(t, f) =>
      var doc := FlagDoc(StampedFlag(f, Unix(now), Unix(now)));
      assert Touches(op, FlagPath(t, f.key)) && Touches(op, FlagKeys(t));
      CreationLeaves(db, now, Render(FlagPath(t, f.key)), doc, Render(FlagKeys(t)), f.key, key);
    case UpdateFlag(t, f) => assert Touches(op, FlagPath(t, f.key));
    case DeleteFlag(t, k) =>
      assert Touches(op, FlagPath(t, k)) && Touches(op, FlagKeys(t));
      DeletionLeaves(db, now, Render(FlagPath(t, k)), Render(FlagKeys(t)), k, key);
    case SaveAssignment(t, a) => assert Touches(op, AssignmentPath(t, a.subjectId, a.flagKey));
    case CreateExperiment(t, e) =>
      var doc := ExperimentDoc(StampedExperiment(e, Unix(now), Unix(now)));
      assert Touches(op, ExperimentPath(t, e.key)) && Touches(op, ExperimentKeys(t));
      CreationLeaves(db, now, Render(ExperimentPath(t, e.key)), doc, Render(ExperimentKeys(t)), e.key, key);
    case UpdateExperiment(t, e) => assert Touches(op, ExperimentPath(t, e.key));
    case CreateAPIKey(t, k) =>
      var doc := ApiKeyDoc(ApiKeyData(t, NewApiKey(now, k)));
      assert Touches(op, ApiKeyPath(t, k.id)) && Touches(op, ApiKeyIds(t)) && Touches(op, HashPath(k.keyHash));
      CreationLeaves(db, now, Render(ApiKeyPath(t, k.id)), doc, Render(ApiKeyIds(t)), k.id, key);
    case RevokeAPIKey(t, id) => assert Touches(op, ApiKeyPath(t, id));
    case _ =>
  }

  /** A call leaves every path it does not name as it was. */
  lemma StepFrame(db: Db, op: Op, now: int, p: Path)
    requires PlainOp(op) && Plain(p) && !Touches(op, p)
    ensures Slot(Step(db, op, now).0, p) == Slot(db, p)
  {
    hide Render, Step;
    forall q: Path | Touches(op, q)
      ensures Render(q) != Render(p)
    {
      Apart(q, p);
    }
    StepLeaves(db, op, now, Render(p));
  }

  // ---- The abstraction ----

  function Index(members: set<string>): Option<Entry> {
    if members == {} then None else Some(Members(members))
  }

  /** What the flat store should hold at a path, expiry aside. */
  function CleanSlot(c: Clean, p: Path): Option<Entry> {
    match p
    case FlagPath(t, k) => if (t, k) in c.flags then Some(Data(FlagDoc(c.flags[(t, k)]), None)) else None
    case FlagKeys(t) => Index(KeysOf(c.flags, t))
    case ExperimentPath(t, k) =>
      if (t, k) in c.experiments then Some(Data(ExperimentDoc(c.experiments[(t, k)]), None)) else None
    case ExperimentKeys(t) => Index(KeysOf(c.experiments, t))
    case AssignmentPath(t, s, f) =>
      if (t, s, f) in c.assignments then Some(Data(AssignmentDoc(c.assignments[(t, s, f)]), None)) else None
    case ApiKeyPath(t, id) =>
      if (t, id) in c.apiKeys then Some(Data(ApiKeyDoc(ApiKeyData(t, c.apiKeys[(t, id)])), None)) else None
    case ApiKeyIds(t) => Index(KeysOf(c.apiKeys, t))
    case HashPath(h) =>
      if h in c.hashes then Some(Data(RefDoc(BuildKey([c.hashes[h].0, c.hashes[h].1])), None)) else None
  }

  /** Redis may drop an assignment only once its reader would reject it; nothing else expires. */
  predicate DeadlineFits(doc: Doc, deadline: Option<int>) {
    if doc.AssignmentDoc? && doc.assignment.expiresAt > 0
    then deadline.Some? && deadline.value >= doc.assignment.expiresAt * 1000
    else deadline.None?
  }

  predicate Fits(slot: Option<Entry>, want: Option<Entry>) {
    match want
    case None => slot.None?
    case Some(Members(s)) => slot == want
    case Some(Data(doc, _)) =>
      slot.Some? && slot.value.Data? && slot.value.doc == doc && DeadlineFits(doc, slot.value.deadline)
  }

  ghost predicate HashesPlain(c: Clean) {
    forall h :: h in c.hashes ==> PlainTenant(c.hashes[h].0)
  }

  /**
   * The flat store holds exactly what the tenant store says, at every path of
   * plain ids. In particular the index sets list exactly the stored records.
   */
  ghost predicate Represents(db: Db, c: Clean) {
    && HashesPlain(c)
    && forall p: Path {:trigger Slot(db, p)} :: Plain(p) ==> Fits(Slot(db, p), CleanSlot(c, p))
  }

  lemma RecordFrame(c: Clean, op: Op, now: int, p: Path)
    requires !Touches(op, p) && !p.FlagKeys? && !p.ExperimentKeys? && !p.ApiKeyIds?
    ensures CleanSlot(CleanStep(c, op, now).0, p) == CleanSlot(c, p)
  {
    hide BuildKey, ReadOnly;
  }

  lemma FlagKeysFrame(c: Clean, op: Op, now: int, t: string)
    requires !Touches(op, FlagKeys(t))
    ensures KeysOf(CleanStep(c, op, now).0.flags, t) == KeysOf(c.flags, t)
  {
    hide ReadOnly;
    var c' := CleanStep(c, op, now).0;
    assert forall k :: (t, k) in c'.flags <==> (t, k) in c.flags;
  }

  lemma ExperimentKeysFrame(c: Clean, op: Op, now: int, t: string)
    requires !Touches(op, ExperimentKeys(t))
    ensures KeysOf(CleanStep(c, op, now).0.experiments, t) == KeysOf(c.experiments, t)
  {
    hide ReadOnly;
    var c' := CleanStep(c, op, now).0;
    assert forall k :: (t, k) in c'.experiments <==> (t, k) in c.experiments;
  }

  lemma ApiKeyIdsFrame(c: Clean, op: Op, now: int, t: string)
    requires !Touches(op, ApiKeyIds(t))
    ensures KeysOf(CleanStep(c, op, now).0.apiKeys, t) == KeysOf(c.apiKeys, t)
  {
    hide ReadOnly;
    var c' := CleanStep(c, op, now).0;
    assert forall k :: (t, k) in c'.apiKeys <==> (t, k) in c.apiKeys;
  }

  lemma CleanFrame(c: Clean, op: Op, now: int, p: Path)
    requires !Touches(op, p)
    ensures CleanSlot(CleanStep(c, op, now).0, p) == CleanSlot(c, p)
  {
    hide CleanStep, KeysOf, BuildKey;
    match p
    case FlagKeys(t) => FlagKeysFrame(c, op, now, t);
    case ExperimentKeys(t) => ExperimentKeysFrame(c, op, now, t);
    case ApiKeyIds(t) => ApiKeyIdsFrame(c, op, now, t);
    case _ => RecordFrame(c, op, now, p);
  }

  // ---- What reads give ----

  lemma ReadFlag(db: Db, c: Clean, now: int, t: string, k: string)
    requires Represents(db, c) && PlainTenant(t)
    ensures GetFlagDoc(db, now, Render(FlagPath(t, k))) ==
            if (t, k) in c.flags then Present(c.flags[(t, k)]) else Absent
  {
    hide Render;
    assert Fits(Slot(db, FlagPath(t, k)), CleanSlot(c, FlagPath(t, k)));
  }

  lemma ReadExperiment(db: Db, c: Clean, now: int, t: string, k: string)
    requires Represents(db, c) && PlainTenant(t)
    ensures GetExperimentDoc(db, now, Render(ExperimentPath(t, k))) ==
            if (t, k) in c.experiments then Present(c.experiments[(t, k)]) else Absent
  {
    hide Render;
    assert Fits(Slot(db, ExperimentPath(t, k)), CleanSlot(c, ExperimentPath(t, k)));
  }

  lemma ReadApiKey(db: Db, c: Clean, now: int, t: string, id: string)
    requires Represents(db, c) && PlainTenant(t)
    ensures GetApiKeyDoc(db, now, Render(ApiKeyPath(t, id))) ==
            if (t, id) in c.apiKeys then Present(ApiKeyData(t, c.apiKeys[(t, id)])) else Absent
  {
    hide Render;
    assert Fits(Slot(db, ApiKeyPath(t, id)), CleanSlot(c, ApiKeyPath(t, id)));
  }

  lemma ReadIndexes(db: Db, c: Clean, now: int, t: string)
    requires Represents(db, c) && PlainTenant(t)
    ensures SMembers(db, now, Render(FlagKeys(t))) == Some(KeysOf(c.flags, t))
    ensures SMembers(db, now, Render(ExperimentKeys(t))) == Some(KeysOf(c.experiments, t))
    ensures SMembers(db, now, Render(ApiKeyIds(t))) == Some(KeysOf(c.apiKeys, t))
  {
    hide Render;
    assert Fits(Slot(db, FlagKeys(t)), CleanSlot(c, FlagKeys(t)));
    assert Fits(Slot(db, ExperimentKeys(t)), CleanSlot(c, ExperimentKeys(t)));
    assert Fits(Slot(db, ApiKeyIds(t)), CleanSlot(c, ApiKeyIds(t)));
  }

  lemma {:induction false} FetchedFlags(db: Db, c: Clean, now: int, t: string, keys: seq<string>)
    requires Represents(db, c) && PlainTenant(t)
    ensures FetchFlags(db, now, t, keys) == Values(c.flags, t, keys)
    decreases |keys|
  {
    hide Represents, GetFlagDoc;
    if keys != [] {
      ReadFlag(db, c, now, t, keys[0]);
      FetchedFlags(db, c, now, t, keys[1..]);
    }
  }

  lemma {:induction false} FetchedExperiments(db: Db, c: Clean, now: int, t: string, keys: seq<string>)
    requires Represents(db, c) && PlainTenant(t)
    ensures FetchExperiments(db, now, t, keys) == Values(c.experiments, t, keys)
    decreases |keys|
  {
    hide Represents, GetExperimentDoc;
    if keys != [] {
      ReadExperiment(db, c, now, t, keys[0]);
      FetchedExperiments(db, c, now, t, keys[1..]);
    }
  }

  lemma {:induction false} FetchedApiKeys(db: Db, c: Clean, now: int, t: string, ids: seq<string>)
    requires Represents(db, c) && PlainTenant(t)
    ensures FetchApiKeys(db, now, t, ids) == Values(c.apiKeys, t, ids)
    decreases |ids|
  {
    hide Represents, GetApiKeyDoc;
    if ids != [] {
      ReadApiKey(db, c, now, t, ids[0]);
      FetchedApiKeys(db, c, now, t, ids[1..]);
    }
  }

  lemma ListsAgree(db: Db, c: Clean, now: int, t: string, pr: Option<PageRequest>)
    requires Represents(db, c) && PlainTenant(t)
    ensures DoListFlags(db, now, t, pr) == ReadOnly(c, ListFlags(t, pr), now)
    ensures DoListExperiments(db, now, t, pr) == ReadOnly(c, ListExperiments(t, pr), now)
    ensures DoListAPIKeys(db, now, t, pr) == ReadOnly(c, ListAPIKeys(t, pr), now)
  {
    hide Represents, Render, SMembers, PageOfKeys, KeysOf, Values;
    ReadIndexes(db, c, now, t);
    var flags, experiments, ids :=
      PageOfKeys(KeysOf(c.flags, t), pr),
      PageOfKeys(KeysOf(c.experiments, t), pr),
      PageOfKeys(KeysOf(c.apiKeys, t), pr);
    if flags.Some? {
      FetchedFlags(db, c, now, t, flags.value.keys);
    }
    if experiments.Some? {
      FetchedExperiments(db, c, now, t, experiments.value.keys);
    }
    if ids.Some? {
      FetchedApiKeys(db, c, now, t, ids.value.keys);
    }
  }

  /** Redis's own expiry never shows: the reader's check alone decides. */
  lemma AssignmentsAgree(db: Db, c: Clean, now: int, t: string, s: string, f: string)
    requires Represents(db, c) && PlainTenant(t) && NoColon(s)
    ensures DoGetAssignment(db, now, t, s, f) == ReadOnly(c, GetAssignment(t, s, f), now)
  {
    hide Render;
    assert Fits(Slot(db, AssignmentPath(t, s, f)), CleanSlot(c, AssignmentPath(t, s, f)));
  }

  lemma HashesAgree(db: Db, c: Clean, now: int, h: string)
    requires Represents(db, c)
    ensures DoGetAPIKeyByHash(db, now, h) == ApiKeyFound(GetByHash(c, h))
  {
    hide Render;
    var p := HashPath(h);
    assert Fits(Slot(db, p), CleanSlot(c, p)) && HashesPlain(c);
    hide Represents;
    if h in c.hashes {
      var (t, id) := c.hashes[h];
      ReadApiKey(db, c, now, t, id);
      assert BuildKey([t, id][1..]) == id;
      CutUndoesJoin(t, id);
    }
  }

  // ---- Calls that write ----

  lemma IndexSlots(db: Db, c: Clean, t: string)
    requires Represents(db, c) && PlainTenant(t)
    ensures Slot(db, FlagKeys(t)) == Index(KeysOf(c.flags, t))
    ensures Slot(db, ExperimentKeys(t)) == Index(KeysOf(c.experiments, t))
    ensures Slot(db, ApiKeyIds(t)) == Index(KeysOf(c.apiKeys, t))
  {
    hide Render, KeysOf;
    assert Fits(Slot(db, FlagKeys(t)), CleanSlot(c, FlagKeys(t)));
    assert Fits(Slot(db, ExperimentKeys(t)), CleanSlot(c, ExperimentKeys(t)));
    assert Fits(Slot(db, ApiKeyIds(t)), CleanSlot(c, ApiKeyIds(t)));
  }

  /** What a call has to show for the paths it writes. */
  ghost predicate TouchedFit(db: Db, c: Clean, op: Op) {
    forall p: Path {:trigger Slot(db, p)} :: Plain(p) && Touches(op, p) ==> Fits(Slot(db, p), CleanSlot(c, p))
  }

  lemma KeysAdded<V>(m: map<(string, string), V>, t: string, k: string, v: V)
    ensures KeysOf(m[(t, k) := v], t) == KeysOf(m, t) + {k}
  {
  }

  lemma KeysRemoved<V>(m: map<(string, string), V>, t: string, k: string)
    ensures KeysOf(m - {(t, k)}, t) == KeysOf(m, t) - {k}
  {
  }

  /** SADD after SET of the record: the index gains the key and the record stays. */
  lemma AddToIndex(db: Db, now: int, record: Path, index: Path, doc: Doc, members: set<string>, key: string)
    requires Plain(record) && Plain(index) && record != index
    requires Slot(db, index) == Index(members)
    ensures var db1 := Set(db, Render(record), doc, None);
            var db2 := SAdd(db1, now, Render(index), key);
            && db2.Some?
            && Slot(db2.value, record) == Some(Data(doc, None))
            && Slot(db2.value, index) == Some(Members(members + {key}))
  {
    hide Render;
    Apart(record, index);
    assert {} + {key} == {key};
  }

  lemma CreateFlagRefines(db: Db, c: Clean, t: string, f: FlagDefinition, now: int)
    requires Represents(db, c) && PlainTenant(t)
    ensures var op := CreateFlag(t, f);
            && Step(db, op, now).1 == CleanStep(c, op, now).1
            && TouchedFit(Step(db, op, now).0, CleanStep(c, op, now).0, op)
  {
    hide ReadOnly, Represents, Render, KeysOf, Slot, SAdd, Set;
    IndexSlots(db, c, t);
    var stamped := StampedFlag(f, Unix(now), Unix(now));
    AddToIndex(db, now, FlagPath(t, f.key), FlagKeys(t), FlagDoc(stamped), KeysOf(c.flags, t), f.key);
    KeysAdded(c.flags, t, f.key, stamped);
  }

  lemma CreateExperimentRefines(db: Db, c: Clean, t: string, e: Experiment, now: int)
    requires Represents(db, c) && PlainTenant(t)
    ensures var op := CreateExperiment(t, e);
            && Step(db, op, now).1 == CleanStep(c, op, now).1
            && TouchedFit(Step(db, op, now).0, CleanStep(c, op, now).0, op)
  {
    hide ReadOnly, Represents, Render, KeysOf, Slot, SAdd, Set;
    IndexSlots(db, c, t);
    var stamped := StampedExperiment(e, Unix(now), Unix(now));
    AddToIndex(db, now, ExperimentPath(t, e.key), ExperimentKeys(t), ExperimentDoc(stamped),
               KeysOf(c.experiments, t), e.key);
    KeysAdded(c.experiments, t, e.key, stamped);
  }

  /** The three keys that CreateAPIKey writes, in the flat store. */
  lemma CreatedApiKeySlots(db: Db, t: string, k: APIKey, now: int, ids: set<string>)
    requires PlainTenant(t) && Slot(db, ApiKeyIds(t)) == Index(ids)
    ensures var (db', r) := DoCreateAPIKey(db, now, t, k);
            && r == ApiKeyIs(NewApiKey(now, k))
            && Slot(db', ApiKeyPath(t, k.id)) == Some(Data(ApiKeyDoc(ApiKeyData(t, NewApiKey(now, k))), None))
            && Slot(db', ApiKeyIds(t)) == Some(Members(ids + {k.id}))
            && Slot(db', HashPath(k.keyHash)) == Some(Data(RefDoc(BuildKey([t, k.id])), None))
  {
    hide Render, Slot, SAdd, Set, BuildKey, Index;
    var doc := ApiKeyDoc(ApiKeyData(t, NewApiKey(now, k)));
    var record, index, byHash := ApiKeyPath(t, k.id), ApiKeyIds(t), HashPath(k.keyHash);
    AddToIndex(db, now, record, index, doc, ids, k.id);
    var db2 := SAdd(Set(db, Render(record), doc, None), now, Render(index), k.id).value;
    SetFrame(db2, byHash, RefDoc(BuildKey([t, k.id])), None, record);
    SetFrame(db2, byHash, RefDoc(BuildKey([t, k.id])), None, index);
  }

  lemma CreatedApiKeyClean(c: Clean, t: string, k: APIKey, now: int)
    ensures var (c', r) := CleanStep(c, CreateAPIKey(t, k), now);
            && r == ApiKeyIs(NewApiKey(now, k))
            && CleanSlot(c', ApiKeyPath(t, k.id)) == Some(Data(ApiKeyDoc(ApiKeyData(t, NewApiKey(now, k))), None))
            && CleanSlot(c', ApiKeyIds(t)) == Some(Members(KeysOf(c.apiKeys, t) + {k.id}))
            && CleanSlot(c', HashPath(k.keyHash)) == Some(Data(RefDoc(BuildKey([t, k.id])), None))
  {
    hide BuildKey;
    KeysAdded(c.apiKeys, t, k.id, NewApiKey(now, k));
    hide KeysOf;
    assert k.id in KeysOf(c.apiKeys, t) + {k.id};
  }

  lemma CreateAPIKeyRefines(db: Db, c: Clean, t: string, k: APIKey, now: int)
    requires Represents(db, c) && PlainTenant(t)
    ensures var op := CreateAPIKey(t, k);
            && Step(db, op, now).1 == CleanStep(c, op, now).1
            && TouchedFit(Step(db, op, now).0, CleanStep(c, op, now).0, op)
  {
    hide Represents, KeysOf, Slot, CleanSlot, CleanStep, BuildKey, DoCreateAPIKey;
    IndexSlots(db, c, t);
    CreatedApiKeySlots(db, t, k, now, KeysOf(c.apiKeys, t));
    CreatedApiKeyClean(c, t, k, now);
  }

  lemma DeleteFlagRefines(db: Db, c: Clean, t: string, k: string, now: int)
    requires Represents(db, c) && PlainTenant(t)
    ensures var op := DeleteFlag(t, k);
            && Step(db, op, now).1 == CleanStep(c, op, now).1
            && TouchedFit(Step(db, op, now).0, CleanStep(c, op, now).0, op)
  {
    hide ReadOnly, Represents, Render, KeysOf;
    IndexSlots(db, c, t);
    Apart(FlagPath(t, k), FlagKeys(t));
    KeysRemoved(c.flags, t, k);
  }

  lemma UpdateFlagRefines(db: Db, c: Clean, t: string, f: FlagDefinition, now: int)
    requires Represents(db, c) && PlainTenant(t)
    ensures var op := UpdateFlag(t, f);
            && Step(db, op, now).1 == CleanStep(c, op, now).1
            && TouchedFit(Step(db, op, now).0, CleanStep(c, op, now).0, op)
  {
    assert Fits(Slot(db, FlagPath(t, f.key)), CleanSlot(c, FlagPath(t, f.key)));
    ReadFlag(db, c, now, t, f.key);
    hide Represents, Render, GetFlagDoc;
  }

  lemma UpdateExperimentRefines(db: Db, c: Clean, t: string, e: Experiment, now: int)
    requires Represents(db, c) && PlainTenant(t)
    ensures var op := UpdateExperiment(t, e);
            && Step(db, op, now).1 == CleanStep(c, op, now).1
            && TouchedFit(Step(db, op, now).0, CleanStep(c, op, now).0, op)
  {
    assert Fits(Slot(db, ExperimentPath(t, e.key)), CleanSlot(c, ExperimentPath(t, e.key)));
    ReadExperiment(db, c, now, t, e.key);
    hide Represents, Render, GetExperimentDoc;
  }

  lemma RevokeAPIKeyRefines(db: Db, c: Clean, t: string, id: string, now: int)
    requires Represents(db, c) && PlainTenant(t)
    ensures var op := RevokeAPIKey(t, id);
            && Step(db, op, now).1 == CleanStep(c, op, now).1
            && TouchedFit(Step(db, op, now).0, CleanStep(c, op, now).0, op)
  {
    assert Fits(Slot(db, ApiKeyPath(t, id)), CleanSlot(c, ApiKeyPath(t, id)));
    ReadApiKey(db, c, now, t, id);
    hide Represents, Render, GetApiKeyDoc;
  }

  lemma SaveAssignmentRefines(db: Db, c: Clean, t: string, a: Assignment, now: int)
    requires PlainTenant(t)
    ensures var op := SaveAssignment(t, a);
            && Step(db, op, now).1 == CleanStep(c, op, now).1
            && TouchedFit(Step(db, op, now).0, CleanStep(c, op, now).0, op)
  {
    hide Render;
  }

  /** Answers and written paths, for every kind of call. */
  lemma CallRefines(db: Db, c: Clean, op: Op, now: int)
    requires Represents(db, c) && PlainOp(op)
    ensures Step(db, op, now).1 == CleanStep(c, op, now).1
    ensures TouchedFit(Step(db, op, now).0, CleanStep(c, op, now).0, op)
  {
    hide Represents, Render, KeysOf, GetFlagDoc, GetExperimentDoc, GetByHash;
    match op
    case CreateFlag(t, f) => CreateFlagRefines(db, c, t, f, now);
    case GetFlag(t, k) => ReadFlag(db, c, now, t, k);
    case ListFlags(t, pr) => ListsAgree(db, c, now, t, pr);
    case UpdateFlag(t, f) => UpdateFlagRefines(db, c, t, f, now);
    case DeleteFlag(t, k) => DeleteFlagRefines(db, c, t, k, now);
    case SaveAssignment(t, a) => SaveAssignmentRefines(db, c, t, a, now);
    case GetAssignment(t, s, f) => AssignmentsAgree(db, c, now, t, s, f);
    case CreateExperiment(t, e) => CreateExperimentRefines(db, c, t, e, now);
    case GetExperiment(t, k) => ReadExperiment(db, c, now, t, k);
    case ListExperiments(t, pr) => ListsAgree(db, c, now, t, pr);
    case UpdateExperiment(t, e) => UpdateExperimentRefines(db, c, t, e, now);
    case CreateAPIKey(t, k) => CreateAPIKeyRefines(db, c, t, k, now);
    case GetAPIKeyByHash(h) => HashesAgree(db, c, now, h);
    case ListAPIKeys(t, pr) => ListsAgree(db, c, now, t, pr);
    case RevokeAPIKey(t, id) => RevokeAPIKeyRefines(db, c, t, id, now);
  }

  lemma HashesStayPlain(c: Clean, op: Op, now: int)
    requires HashesPlain(c) && PlainOp(op)
    ensures HashesPlain(CleanStep(c, op, now).0)
  {
  }

  /** One call on the flat store answers as the tenant store does, and keeps the correspondence. */
  lemma StepRefines(db: Db, c: Clean, op: Op, now: int)
    requires Represents(db, c) && PlainOp(op)
    ensures Step(db, op, now).1 == CleanStep(c, op, now).1
    ensures Represents(Step(db, op, now).0, CleanStep(c, op, now).0)
  {
    var db', c' := Step(db, op, now).0, CleanStep(c, op, now).0;
    CallRefines(db, c, op, now);
    HashesStayPlain(c, op, now);
    hide Step, CleanStep, Slot, CleanSlot, Fits, Plain, Touches;
    forall p: Path | Plain(p)
      ensures Fits(Slot(db', p), CleanSlot(c', p))
    {
      if !Touches(op, p) {
        StepFrame(db, op, now, p);
        CleanFrame(c, op, now, p);
        assert Fits(Slot(db, p), CleanSlot(c, p));
      }
    }
  }

  ghost predicate PlainCalls(calls: seq<Call>) {
    forall call <- calls :: PlainOp(call.op)
  }

  lemma EmptyRepresentsEmpty()
    ensures Represents(map[], Empty)
  {
    hide Render;
    forall p: Path
      ensures CleanSlot(Empty, p) == None
    {
      match p
      case FlagKeys(t) => assert KeysOf(Empty.flags, t) == {};
      case ExperimentKeys(t) => assert KeysOf(Empty.experiments, t) == {};
      case ApiKeyIds(t) => assert KeysOf(Empty.apiKeys, t) == {};
      case _ =>
    }
  }

  /**
   * Whole runs: as long as ids are plain, the flat store gives the very answers
   * of the tenant store, and still represents it afterwards.
   */
  lemma {:induction false} RunRefines(db: Db, c: Clean, calls: seq<Call>)
    requires Represents(db, c) && PlainCalls(calls)
    ensures Responses(db, calls) == CleanResponses(c, calls)
    ensures Represents(Run(db, calls), CleanRun(c, calls))
    decreases |calls|
  {
    hide Step, CleanStep, Represents;
    if calls != [] {
      var call := calls[0];
      StepRefines(db, c, call.op, call.now);
      assert PlainCalls(calls[1..]);
      RunRefines(Step(db, call.op, call.now).0, CleanStep(c, call.op, call.now).0, calls[1..]);
    }
  }
}
