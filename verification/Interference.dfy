/** Exactly which tenants can change the answers given to another, whatever their ids look like. */
module Interference {
  import opened Options
  import opened Records
  import opened Keys
  import opened KeyConflicts
  import opened Pagination
  import opened F = FlatStore
  import opened Refinement
  import opened T = TenantStore
  import opened Isolation

  // ---- What a tenant can see ----

  /** The keys that calls of t may read or write: its own, those of its hashes, and those its lookups lead to. */
  ghost predicate Sees(t: string, issuer: Issuer, key: string) {
    || (exists p: Path :: OfTenant(p, t) && Render(p) == key)
    || (exists h: string :: issuer(h) == t && Render(HashPath(h)) == key)
    || (exists id: string :: LookupKey(t, id) == key)
  }

  /** The two stores are the same as far as t can see. */
  ghost predicate Alike(db: Db, db': Db, t: string, issuer: Issuer) {
    forall key: string :: Sees(t, issuer, key) ==> Lookup(db, key) == Lookup(db', key)
  }

  ghost predicate IsReference(entry: Option<Entry>, t: string) {
    match entry
    case None => true
    case Some(Data(RefDoc(ref), None)) => exists id: string :: ref == BuildKey([t, id])
    case _ => false
  }

  /** Under the hashes of t there is nothing but references to keys of t. */
  ghost predicate HashesRefer(db: Db, t: string, issuer: Issuer) {
    forall h: string :: issuer(h) == t ==> IsReference(Lookup(db, Render(HashPath(h))), t)
  }

  lemma SeesOwn(t: string, issuer: Issuer, p: Path)
    requires OfTenant(p, t)
    ensures Sees(t, issuer, Render(p))
  {
    hide Render;
  }

  lemma SeesHash(t: string, issuer: Issuer, h: string)
    requires issuer(h) == t
    ensures Sees(t, issuer, Render(HashPath(h)))
  {
    hide Render;
  }

  // ---- A call of somebody else ----

  /** A path that a call of tenant u writes. */
  predicate WrittenBy(q: Path, u: string, issuer: Issuer) {
    if q.HashPath? then issuer(q.hash) == u else q.tenant == u
  }

  lemma TouchesOwn(op: Op, q: Path, issuer: Issuer)
    requires Touches(op, q) && IssuesOwnHash(op, issuer)
    ensures !op.GetAPIKeyByHash? && WrittenBy(q, op.tenant, issuer)
  {
  }

  /** Tenants that do not disturb t write nothing that t sees. */
  lemma WritesUnseen(q: Path, u: string, t: string, issuer: Issuer)
    requires u != t && !Disturbs(u, t) && WrittenBy(q, u, issuer)
    ensures !Sees(t, issuer, Render(q))
  {
    hide Render, BuildKey, Extends, LookupRoot, InHashSpace;
    forall p: Path | OfTenant(p, t)
      ensures Render(p) != Render(q)
    {
      if Render(p) == Render(q) {
        if q.HashPath? {
          HashKeysApart(p, q.hash);
        } else {
          TenantKeysApart(p, q);
        }
      }
    }
    forall h: string | issuer(h) == t
      ensures Render(HashPath(h)) != Render(q)
    {
      if Render(HashPath(h)) == Render(q) {
        if q.HashPath? {
          RenderIsInjective(HashPath(h), q);
        } else {
          HashKeysApart(q, h);
        }
      }
    }
    forall id: string
      ensures LookupKey(t, id) != Render(q)
    {
      if LookupKey(t, id) == Render(q) {
        LookupUnwritten(q, u, t, id);
      }
    }
  }

  lemma LookupUnwritten(q: Path, u: string, t: string, id: string)
    requires u != t && LookupKey(t, id) == Render(q) && (q.HashPath? || q.tenant == u)
    ensures Disturbs(u, t)
  {
    hide Render, BuildKey, Extends, InHashSpace, LookupRoot;
    LookupKeyIs(t, id);
    if q.HashPath? {
      LookupKeyApartFromHashes(t, id, q.hash);
    } else if Cut(t).found {
      WritersUnder(q, LookupRoot(t), id);
    } else {
      TenantKeysApart(ApiKeyPath(t, id), q);
    }
  }

  /** The tenant on whose behalf a call is made. */
  function Owner(op: Op, issuer: Issuer): string {
    if op.GetAPIKeyByHash? then issuer(op.keyHash) else op.tenant
  }

  lemma ForeignLeaves(db: Db, op: Op, now: int, t: string, issuer: Issuer)
    requires Owner(op, issuer) != t && !Disturbs(Owner(op, issuer), t) && IssuesOwnHash(op, issuer)
    ensures Alike(Step(db, op, now).0, db, t, issuer)
  {
    hide Render, Step, Disturbs;
    forall key: string | Sees(t, issuer, key)
      ensures Lookup(Step(db, op, now).0, key) == Lookup(db, key)
    {
      forall q: Path | Touches(op, q)
        ensures Render(q) != key
      {
        TouchesOwn(op, q, issuer);
        WritesUnseen(q, op.tenant, t, issuer);
      }
      StepLeaves(db, op, now, key);
    }
  }

  // ---- A call of t itself ----

  lemma AlikeAt(db: Db, db': Db, t: string, issuer: Issuer, key: string, now: int)
    requires Alike(db, db', t, issuer) && Sees(t, issuer, key)
    ensures Live(db, now, key) == Live(db', now, key)
  {
    assert Lookup(db, key) == Lookup(db', key);
  }

  /** Any update of one key keeps the stores alike. */
  lemma AlikePut(db: Db, db': Db, t: string, issuer: Issuer, key: string, entry: Entry)
    requires Alike(db, db', t, issuer)
    ensures Alike(db[key := entry], db'[key := entry], t, issuer)
  {
    hide Sees;
    forall k: string | Sees(t, issuer, k)
      ensures Lookup(db[key := entry], k) == Lookup(db'[key := entry], k)
    {
      assert Lookup(db, k) == Lookup(db', k);
    }
  }

  lemma AlikeDel(db: Db, db': Db, t: string, issuer: Issuer, key: string)
    requires Alike(db, db', t, issuer)
    ensures Alike(db - {key}, db' - {key}, t, issuer)
  {
    hide Sees;
    forall k: string | Sees(t, issuer, k)
      ensures Lookup(db - {key}, k) == Lookup(db' - {key}, k)
    {
      assert Lookup(db, k) == Lookup(db', k);
    }
  }

  lemma AlikeSAdd(db: Db, db': Db, t: string, issuer: Issuer, now: int, p: Path, member: string)
    requires Alike(db, db', t, issuer) && OfTenant(p, t)
    ensures var added, added' := SAdd(db, now, Render(p), member), SAdd(db', now, Render(p), member);
            added.Some? == added'.Some? && (added.Some? ==> Alike(added.value, added'.value, t, issuer))
  {
    hide Render, Alike, Sees;
    SeesOwn(t, issuer, p);
    AlikeAt(db, db', t, issuer, Render(p), now);
    match Live(db, now, Render(p))
    case None => AlikePut(db, db', t, issuer, Render(p), Members({member}));
    case Some(Members(s)) => AlikePut(db, db', t, issuer, Render(p), Members(s + {member}));
    case Some(Data(_, _)) =>
  }

  lemma AlikeSRem(db: Db, db': Db, t: string, issuer: Issuer, now: int, p: Path, member: string)
    requires Alike(db, db', t, issuer) && OfTenant(p, t)
    ensures var removed, removed' := SRem(db, now, Render(p), member), SRem(db', now, Render(p), member);
            removed.Some? == removed'.Some? && (removed.Some? ==> Alike(removed.value, removed'.value, t, issuer))
  {
    hide Render, Alike, Sees;
    SeesOwn(t, issuer, p);
    AlikeAt(db, db', t, issuer, Render(p), now);
    match Live(db, now, Render(p))
    case Some(Members(s)) =>
      AlikeDel(db, db', t, issuer, Render(p));
      AlikePut(db, db', t, issuer, Render(p), Members(s - {member}));
    case _ =>
  }

  /** One record or index of t reads the same. */
  lemma AlikeGet(db: Db, db': Db, t: string, issuer: Issuer, now: int, p: Path)
    requires Alike(db, db', t, issuer) && OfTenant(p, t)
    ensures Get(db, now, Render(p)) == Get(db', now, Render(p))
    ensures SMembers(db, now, Render(p)) == SMembers(db', now, Render(p))
  {
    hide Render, Alike, Sees;
    SeesOwn(t, issuer, p);
    AlikeAt(db, db', t, issuer, Render(p), now);
  }

  lemma {:induction false} AlikeFlags(db: Db, db': Db, t: string, issuer: Issuer, now: int, keys: seq<string>)
    requires Alike(db, db', t, issuer)
    ensures FetchFlags(db, now, t, keys) == FetchFlags(db', now, t, keys)
    decreases |keys|
  {
    hide Render, Get, Alike;
    if keys != [] {
      AlikeGet(db, db', t, issuer, now, FlagPath(t, keys[0]));
      AlikeFlags(db, db', t, issuer, now, keys[1..]);
    }
  }

  lemma {:induction false} AlikeExperiments(db: Db, db': Db, t: string, issuer: Issuer, now: int, keys: seq<string>)
    requires Alike(db, db', t, issuer)
    ensures FetchExperiments(db, now, t, keys) == FetchExperiments(db', now, t, keys)
    decreases |keys|
  {
    hide Render, Get, Alike;
    if keys != [] {
      AlikeGet(db, db', t, issuer, now, ExperimentPath(t, keys[0]));
      AlikeExperiments(db, db', t, issuer, now, keys[1..]);
    }
  }

  lemma {:induction false} AlikeApiKeys(db: Db, db': Db, t: string, issuer: Issuer, now: int, ids: seq<string>)
    requires Alike(db, db', t, issuer)
    ensures FetchApiKeys(db, now, t, ids) == FetchApiKeys(db', now, t, ids)
    decreases |ids|
  {
    hide Render, Get, Alike;
    if ids != [] {
      AlikeGet(db, db', t, issuer, now, ApiKeyPath(t, ids[0]));
      AlikeApiKeys(db, db', t, issuer, now, ids[1..]);
    }
  }

  lemma AlikeLists(db: Db, db': Db, t: string, issuer: Issuer, now: int, pr: Option<PageRequest>)
    requires Alike(db, db', t, issuer)
    ensures DoListFlags(db, now, t, pr) == DoListFlags(db', now, t, pr)
    ensures DoListExperiments(db, now, t, pr) == DoListExperiments(db', now, t, pr)
    ensures DoListAPIKeys(db, now, t, pr) == DoListAPIKeys(db', now, t, pr)
  {
    hide Render, Get, SMembers, PageOfKeys, Alike, FetchFlags, FetchExperiments, FetchApiKeys;
    AlikeGet(db, db', t, issuer, now, FlagKeys(t));
    AlikeGet(db, db', t, issuer, now, ExperimentKeys(t));
    AlikeGet(db, db', t, issuer, now, ApiKeyIds(t));
    forall keys: seq<string>
      ensures FetchFlags(db, now, t, keys) == FetchFlags(db', now, t, keys)
      ensures FetchExperiments(db, now, t, keys) == FetchExperiments(db', now, t, keys)
      ensures FetchApiKeys(db, now, t, keys) == FetchApiKeys(db', now, t, keys)
    {
      AlikeFlags(db, db', t, issuer, now, keys);
      AlikeExperiments(db, db', t, issuer, now, keys);
      AlikeApiKeys(db, db', t, issuer, now, keys);
    }
  }

  lemma AlikeLookup(db: Db, db': Db, t: string, issuer: Issuer, now: int, h: string)
    requires Alike(db, db', t, issuer) && HashesRefer(db, t, issuer) && issuer(h) == t
    ensures DoGetAPIKeyByHash(db, now, h) == DoGetAPIKeyByHash(db', now, h)
  {
    hide Render, BuildKey, Cut, Alike;
    SeesHash(t, issuer, h);
    AlikeAt(db, db', t, issuer, Render(HashPath(h)), now);
    assert IsReference(Lookup(db, Render(HashPath(h))), t);
    match Live(db, now, Render(HashPath(h)))
    case Some(Data(RefDoc(ref), _)) =>
      var id: string :| ref == BuildKey([t, id]);
      assert Sees(t, issuer, LookupKey(t, id));
      AlikeAt(db, db', t, issuer, LookupKey(t, id), now);
    case _ =>
  }

  lemma AlikeCreation(
    db: Db, db': Db, t: string, issuer: Issuer, now: int, record: Path, doc: Doc, index: Path, member: string)
    requires Alike(db, db', t, issuer) && OfTenant(index, t)
    ensures var d, d' := Set(db, Render(record), doc, None), Set(db', Render(record), doc, None);
            var added, added' := SAdd(d, now, Render(index), member), SAdd(d', now, Render(index), member);
            && Alike(d, d', t, issuer) && added.Some? == added'.Some?
            && (added.Some? ==> Alike(added.value, added'.value, t, issuer))
  {
    hide Render, Alike, SAdd;
    var entry := Data(doc, None);
    AlikePut(db, db', t, issuer, Render(record), entry);
    AlikeSAdd(db[Render(record) := entry], db'[Render(record) := entry], t, issuer, now, index, member);
  }

  lemma AlikeDeletion(db: Db, db': Db, k: string, now: int, t: string, issuer: Issuer)
    requires Alike(db, db', t, issuer)
    ensures Alike(DoDeleteFlag(db, now, t, k).0, DoDeleteFlag(db', now, t, k).0, t, issuer)
    ensures DoDeleteFlag(db, now, t, k).1 == DoDeleteFlag(db', now, t, k).1
  {
    hide Render, Alike, SRem;
    AlikeDel(db, db', t, issuer, Render(FlagPath(t, k)));
    var d, d' := Del(db, Render(FlagPath(t, k))), Del(db', Render(FlagPath(t, k)));
    AlikeSRem(d, d', t, issuer, now, FlagKeys(t), k);
  }

  lemma AlikeFlagUpdate(db: Db, db': Db, flag: FlagDefinition, now: int, t: string, issuer: Issuer)
    requires Alike(db, db', t, issuer)
    ensures Alike(DoUpdateFlag(db, now, t, flag).0, DoUpdateFlag(db', now, t, flag).0, t, issuer)
    ensures DoUpdateFlag(db, now, t, flag).1 == DoUpdateFlag(db', now, t, flag).1
  {
    hide Render, Get, Alike;
    AlikeGet(db, db', t, issuer, now, FlagPath(t, flag.key));
    var got := GetFlagDoc(db, now, Render(FlagPath(t, flag.key)));
    if got.Present? {
      var f := StampedFlag(flag, got.value.createdAt, Unix(now));
      AlikePut(db, db', t, issuer, Render(FlagPath(t, flag.key)), Data(FlagDoc(f), None));
    }
  }

  lemma AlikeExperimentUpdate(db: Db, db': Db, experiment: Experiment, now: int, t: string, issuer: Issuer)
    requires Alike(db, db', t, issuer)
    ensures var one, other := DoUpdateExperiment(db, now, t, experiment), DoUpdateExperiment(db', now, t, experiment);
            Alike(one.0, other.0, t, issuer) && one.1 == other.1
  {
    hide Render, Get, Alike;
    AlikeGet(db, db', t, issuer, now, ExperimentPath(t, experiment.key));
    var got := GetExperimentDoc(db, now, Render(ExperimentPath(t, experiment.key)));
    if got.Present? {
      var e := StampedExperiment(experiment, got.value.createdAt, Unix(now));
      AlikePut(db, db', t, issuer, Render(ExperimentPath(t, experiment.key)), Data(ExperimentDoc(e), None));
    }
  }

  lemma AlikeRevocation(db: Db, db': Db, id: string, now: int, t: string, issuer: Issuer)
    requires Alike(db, db', t, issuer)
    ensures Alike(DoRevokeAPIKey(db, now, t, id).0, DoRevokeAPIKey(db', now, t, id).0, t, issuer)
    ensures DoRevokeAPIKey(db, now, t, id).1 == DoRevokeAPIKey(db', now, t, id).1
  {
    hide Render, Get, Alike;
    AlikeGet(db, db', t, issuer, now, ApiKeyPath(t, id));
    var got := GetApiKeyDoc(db, now, Render(ApiKeyPath(t, id)));
    if got.Present? {
      var d := got.value.(key := got.value.key.(revokedAt := Unix(now)));
      AlikePut(db, db', t, issuer, Render(ApiKeyPath(t, id)), Data(ApiKeyDoc(d), None));
    }
  }

  lemma AlikeSave(db: Db, db': Db, a: Assignment, now: int, t: string, issuer: Issuer)
    requires Alike(db, db', t, issuer)
    ensures Alike(DoSaveAssignment(db, now, t, a).0, DoSaveAssignment(db', now, t, a).0, t, issuer)
  {
    hide Alike;
    AlikePut(db, db', t, issuer, Render(AssignmentPath(t, a.subjectId, a.flagKey)),
             Data(AssignmentDoc(StoredAssignment(now, a)), AssignmentDeadline(now, a.expiresAt)));
  }

  lemma AlikeSet(db: Db, db': Db, t: string, issuer: Issuer, key: string, doc: Doc)
    requires Alike(db, db', t, issuer)
    ensures Alike(Set(db, key, doc, None), Set(db', key, doc, None), t, issuer)
  {
    hide Alike;
    AlikePut(db, db', t, issuer, key, Data(doc, None));
  }

  lemma AlikeKeyCreation(db: Db, db': Db, apiKey: APIKey, now: int, t: string, issuer: Issuer)
    requires Alike(db, db', t, issuer)
    ensures Alike(DoCreateAPIKey(db, now, t, apiKey).0, DoCreateAPIKey(db', now, t, apiKey).0, t, issuer)
    ensures DoCreateAPIKey(db, now, t, apiKey).1 == DoCreateAPIKey(db', now, t, apiKey).1
  {
    hide Render, BuildKey, SAdd, Set, Alike;
    var k := NewApiKey(now, apiKey);
    var record, index, doc := ApiKeyPath(t, k.id), ApiKeyIds(t), ApiKeyDoc(ApiKeyData(t, k));
    AlikeCreation(db, db', t, issuer, now, record, doc, index, k.id);
    var d, d' := Set(db, Render(record), doc, None), Set(db', Render(record), doc, None);
    var added, added' := SAdd(d, now, Render(index), k.id), SAdd(d', now, Render(index), k.id);
    AlikeSet(if added.Some? then added.value else d, if added'.Some? then added'.value else d', t, issuer,
             Render(HashPath(k.keyHash)), RefDoc(BuildKey([t, k.id])));
  }

  /** The stores stay alike over a call of t. */
  lemma AlikeWrites(db: Db, db': Db, op: Op, now: int, t: string, issuer: Issuer)
    requires Alike(db, db', t, issuer) && Owner(op, issuer) == t
    ensures Alike(Step(db, op, now).0, Step(db', op, now).0, t, issuer)
    ensures !op.GetAPIKeyByHash? ==> Step(db, op, now).1 == Step(db', op, now).1
  {
    hide Render, Get, SAdd, Set, Alike, DoListFlags, DoListExperiments, DoListAPIKeys, DoGetAPIKeyByHash;
    hide DoUpdateFlag, DoUpdateExperiment, DoDeleteFlag, DoCreateAPIKey, DoRevokeAPIKey;
    match op
    case CreateFlag(_, flag) =>
      var f := StampedFlag(flag, Unix(now), Unix(now));
      AlikeCreation(db, db', t, issuer, now, FlagPath(t, f.key), FlagDoc(f), FlagKeys(t), f.key);
    case GetFlag(_, k) => AlikeGet(db, db', t, issuer, now, FlagPath(t, k));
    case ListFlags(_, pr) => AlikeLists(db, db', t, issuer, now, pr);
    case UpdateFlag(_, flag) => AlikeFlagUpdate(db, db', flag, now, t, issuer);
    case DeleteFlag(_, k) => AlikeDeletion(db, db', k, now, t, issuer);
    case SaveAssignment(_, a) => AlikeSave(db, db', a, now, t, issuer);
    case GetAssignment(_, s, f) => AlikeGet(db, db', t, issuer, now, AssignmentPath(t, s, f));
    case CreateExperiment(_, experiment) =>
      var e := StampedExperiment(experiment, Unix(now), Unix(now));
      AlikeCreation(db, db', t, issuer, now, ExperimentPath(t, e.key), ExperimentDoc(e), ExperimentKeys(t), e.key);
    case GetExperiment(_, k) => AlikeGet(db, db', t, issuer, now, ExperimentPath(t, k));
    case ListExperiments(_, pr) => AlikeLists(db, db', t, issuer, now, pr);
    case UpdateExperiment(_, experiment) => AlikeExperimentUpdate(db, db', experiment, now, t, issuer);
    case CreateAPIKey(_, apiKey) => AlikeKeyCreation(db, db', apiKey, now, t, issuer);
    case GetAPIKeyByHash(_) =>
    case ListAPIKeys(_, pr) => AlikeLists(db, db', t, issuer, now, pr);
    case RevokeAPIKey(_, id) => AlikeRevocation(db, db', id, now, t, issuer);
  }

  /** A call of t is answered alike in both stores, which stay alike for t. */
  lemma OwnCall(db: Db, db': Db, op: Op, now: int, t: string, issuer: Issuer)
    requires Alike(db, db', t, issuer) && HashesRefer(db, t, issuer) && Owner(op, issuer) == t
    ensures Step(db, op, now).1 == Step(db', op, now).1
    ensures Alike(Step(db, op, now).0, Step(db', op, now).0, t, issuer)
  {
    AlikeWrites(db, db', op, now, t, issuer);
    if op.GetAPIKeyByHash? {
      AlikeLookup(db, db', t, issuer, now, op.keyHash);
    }
  }

  /** Nothing but references gets under the hashes of t, unless t itself lies among them. */
  lemma OwnCallRefers(db: Db, op: Op, now: int, t: string, issuer: Issuer)
    requires HashesRefer(db, t, issuer) && Owner(op, issuer) == t && IssuesOwnHash(op, issuer) && !InHashSpace(t)
    ensures HashesRefer(Step(db, op, now).0, t, issuer)
  {
    hide Render, BuildKey, InHashSpace;
    forall h: string | issuer(h) == t
      ensures IsReference(Lookup(Step(db, op, now).0, Render(HashPath(h))), t)
    {
      assert IsReference(Lookup(db, Render(HashPath(h))), t);
      if op.CreateAPIKey? && op.apiKey.keyHash == h {
        CreatedReference(db, op.apiKey, now, t);
      } else {
        hide Step, IsReference;
        forall q: Path | Touches(op, q)
          ensures Render(q) != Render(HashPath(h))
        {
          if Render(q) == Render(HashPath(h)) {
            if q.HashPath? {
              RenderIsInjective(q, HashPath(h));
            } else {
              HashKeysApart(q, h);
            }
          }
        }
        StepLeaves(db, op, now, Render(HashPath(h)));
      }
    }
  }

  lemma CreatedReference(db: Db, apiKey: APIKey, now: int, t: string)
    ensures IsReference(Lookup(DoCreateAPIKey(db, now, t, apiKey).0, Render(HashPath(apiKey.keyHash))), t)
  {
    hide Render, BuildKey, SAdd;
  }

  // ---- Runs ----

  /** The calls of tenants of the set, each of which issues its own hashes. */
  ghost predicate RunOf(calls: seq<Call>, tenants: iset<string>, issuer: Issuer) {
    HashesKept(calls, issuer) && forall call <- calls :: Owner(call.op, issuer) in tenants
  }

  /** Tenant t gets the answers that it would get alone. */
  ghost predicate Undisturbed(calls: seq<Call>, t: string, issuer: Issuer) {
    AnswersTo(calls, Responses(map[], calls), t, issuer) == Responses(map[], CallsOf(calls, t, issuer))
  }

  lemma FirstCall(calls: seq<Call>, db: Db, d: Db, t: string, issuer: Issuer)
    requires calls != []
    ensures var (db', r) := Step(db, calls[0].op, calls[0].now);
            var own := Owner(calls[0].op, issuer) == t;
            var rest := CallsOf(calls[1..], t, issuer);
            && CallsOf(calls, t, issuer) == (if own then [calls[0]] else []) + rest
            && AnswersTo(calls, Responses(db, calls), t, issuer) ==
               (if own then [r] else []) + AnswersTo(calls[1..], Responses(db', calls[1..]), t, issuer)
            && (own ==> Responses(d, CallsOf(calls, t, issuer)) ==
                        [Step(d, calls[0].op, calls[0].now).1] + Responses(Step(d, calls[0].op, calls[0].now).0, rest))
  {
    hide Step;
    var answers := Responses(db, calls);
    assert answers[1..] == Responses(Step(db, calls[0].op, calls[0].now).0, calls[1..]);
    var mine := CallsOf(calls, t, issuer);
    if Owner(calls[0].op, issuer) == t {
      assert mine[0] == calls[0] && mine[1..] == CallsOf(calls[1..], t, issuer);
    }
  }

  lemma {:induction false} AlikeRuns(
    db: Db, d: Db, calls: seq<Call>, t: string, tenants: iset<string>, issuer: Issuer)
    requires RunOf(calls, tenants, issuer) && forall u <- tenants :: u != t ==> !Disturbs(u, t)
    requires Alike(db, d, t, issuer) && HashesRefer(db, t, issuer) && !InHashSpace(t)
    ensures AnswersTo(calls, Responses(db, calls), t, issuer) == Responses(d, CallsOf(calls, t, issuer))
    decreases |calls|
  {
    if calls != [] {
      var call := calls[0];
      hide Step, Alike, HashesRefer, Disturbs, InHashSpace, Owner, AnswersTo, CallsOf, Responses;
      assert RunOf(calls[1..], tenants, issuer) && IssuesOwnHash(call.op, issuer);
      FirstCall(calls, db, d, t, issuer);
      var db' := Step(db, call.op, call.now).0;
      if Owner(call.op, issuer) == t {
        OwnCall(db, d, call.op, call.now, t, issuer);
        OwnCallRefers(db, call.op, call.now, t, issuer);
        AlikeRuns(db', Step(d, call.op, call.now).0, calls[1..], t, tenants, issuer);
      } else {
        ForeignLeaves(db, call.op, call.now, t, issuer);
        StillAlike(db', db, d, t, issuer);
        assert CallsOf(calls, t, issuer) == CallsOf(calls[1..], t, issuer);
        AlikeRuns(db', d, calls[1..], t, tenants, issuer);
      }
    }
  }

  lemma StillAlike(db': Db, db: Db, d: Db, t: string, issuer: Issuer)
    requires Alike(db', db, t, issuer) && Alike(db, d, t, issuer) && HashesRefer(db, t, issuer)
    ensures Alike(db', d, t, issuer) && HashesRefer(db', t, issuer)
  {
    hide Render, Sees, IsReference;
    forall h: string | issuer(h) == t
      ensures IsReference(Lookup(db', Render(HashPath(h))), t)
    {
      SeesHash(t, issuer, h);
      assert Lookup(db', Render(HashPath(h))) == Lookup(db, Render(HashPath(h)));
    }
  }
}
