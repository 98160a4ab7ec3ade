/** The store service: RPC methods that read and write one Redis key space in place. */
module RedisStore {
  import opened Options
  import opened Records
  import opened Keys
  import opened Pagination
  import opened F = FlatStore
  import opened T = TenantStore
  import opened Refinement
  import Sorting

  lemma Snoc<T>(a: seq<T>, x: T, b: seq<T>)
    ensures a + ([x] + b) == a + [x] + b
  {
  }

  lemma FlagsFrom(db: Db, now: int, tid: string, keys: seq<string>, i: nat)
    requires i <= |keys|
    ensures keys[0..] == keys
    ensures if i == |keys| then FetchFlags(db, now, tid, keys[i..]) == []
            else var got := GetFlagDoc(db, now, Render(FlagPath(tid, keys[i])));
                 FetchFlags(db, now, tid, keys[i..]) ==
                 if got.Present? then [got.value] + FetchFlags(db, now, tid, keys[i + 1..])
                 else FetchFlags(db, now, tid, keys[i + 1..])
  {
    hide Render, GetFlagDoc;
    if i < |keys| {
      assert keys[i..][0] == keys[i] && keys[i..][1..] == keys[i + 1..];
      var rest := FetchFlags(db, now, tid, keys[i + 1..]);
      assert [] + rest == rest;
    }
  }

  lemma ExperimentsFrom(db: Db, now: int, tid: string, keys: seq<string>, i: nat)
    requires i <= |keys|
    ensures keys[0..] == keys
    ensures if i == |keys| then FetchExperiments(db, now, tid, keys[i..]) == []
            else var got := GetExperimentDoc(db, now, Render(ExperimentPath(tid, keys[i])));
                 FetchExperiments(db, now, tid, keys[i..]) ==
                 if got.Present? then [got.value] + FetchExperiments(db, now, tid, keys[i + 1..])
                 else FetchExperiments(db, now, tid, keys[i + 1..])
  {
    hide Render, GetExperimentDoc;
    if i < |keys| {
      assert keys[i..][0] == keys[i] && keys[i..][1..] == keys[i + 1..];
      var rest := FetchExperiments(db, now, tid, keys[i + 1..]);
      assert [] + rest == rest;
    }
  }

  lemma ApiKeysFrom(db: Db, now: int, tid: string, keys: seq<string>, i: nat)
    requires i <= |keys|
    ensures keys[0..] == keys
    ensures if i == |keys| then FetchApiKeys(db, now, tid, keys[i..]) == []
            else var got := GetApiKeyDoc(db, now, Render(ApiKeyPath(tid, keys[i])));
                 FetchApiKeys(db, now, tid, keys[i..]) ==
                 if got.Present? then [got.value.key] + FetchApiKeys(db, now, tid, keys[i + 1..])
                 else FetchApiKeys(db, now, tid, keys[i + 1..])
  {
    hide Render, GetApiKeyDoc;
    if i < |keys| {
      assert keys[i..][0] == keys[i] && keys[i..][1..] == keys[i + 1..];
      var rest := FetchApiKeys(db, now, tid, keys[i + 1..]);
      assert [] + rest == rest;
    }
  }

  predicate OnlyReads(op: Op) {
    || op.GetFlag? || op.ListFlags? || op.GetAssignment? || op.GetExperiment? || op.ListExperiments?
    || op.GetAPIKeyByHash? || op.ListAPIKeys?
  }

  lemma OnlyReadsKeeps(c: Clean, op: Op, now: int)
    requires OnlyReads(op)
    ensures CleanStep(c, op, now).0 == c
  {
    hide ReadOnly;
  }

  /** The keys of the listings, as the methods build them. */
  lemma KeysOfListings(tid: string, key: string)
    ensures Render(FlagKeys(tid)) == BuildKey([tid, "flag_keys"])
    ensures Render(FlagPath(tid, key)) == BuildKey([tid, "flags", key])
    ensures Render(ExperimentKeys(tid)) == BuildKey([tid, "experiment_keys"])
    ensures Render(ExperimentPath(tid, key)) == BuildKey([tid, "experiments", key])
    ensures Render(ApiKeyIds(tid)) == BuildKey([tid, "apikey_ids"])
    ensures Render(ApiKeyPath(tid, key)) == BuildKey([tid, "apikeys", key])
  {
  }

  class Store {
    /** The contents of Redis. */
    var db: Db

    /** What the contents stand for: one map per kind of record, by tenant. */
    ghost var clean: Clean

    ghost predicate Valid()
      reads this
    {
      Represents(db, clean)
    }

    constructor ()
      ensures Valid() && db == map[] && clean == Empty
    {
      db := map[];
      clean := Empty;
      new;
      EmptyRepresentsEmpty();
    }

    /** The call was answered and took effect as on the tenant maps, if its ids keep the key space unambiguous. */
    twostate predicate Served(op: Op, now: int, r: Response)
      reads this
    {
      && clean == CleanStep(old(clean), op, now).0
      && (old(Valid()) && PlainOp(op) ==> Valid() && r == CleanStep(old(clean), op, now).1)
    }

    /** What a call that only reads answers, in terms of the tenant maps. */
    ghost predicate Answers(op: Op, now: int, r: Response)
      reads this
    {
      && CleanStep(clean, op, now).0 == clean
      && (Valid() && PlainOp(op) ==> r == CleanStep(clean, op, now).1)
    }

    /** Takes the step on the tenant maps; the method that calls it then takes the same step on the contents. */
    ghost method Track(op: Op, now: int)
      modifies this`clean
      ensures clean == CleanStep(old(clean), op, now).0
      ensures old(Valid()) && PlainOp(op) ==>
                Represents(Step(db, op, now).0, clean) && Step(db, op, now).1 == CleanStep(old(clean), op, now).1
    {
      hide CleanStep, Represents, Step;
      if Valid() && PlainOp(op) {
        StepRefines(db, clean, op, now);
      }
      clean := CleanStep(clean, op, now).0;
    }

    lemma Agree(op: Op, now: int)
      requires OnlyReads(op)
      ensures Answers(op, now, Step(db, op, now).1)
    {
      OnlyReadsKeeps(clean, op, now);
      hide CleanStep, Represents, Step;
      if Valid() && PlainOp(op) {
        StepRefines(db, clean, op, now);
      }
    }

    /** paginateKeys: Broken stands for the error or panic it ends in. */
    method PaginateKeys(setKey: string, pr: Option<PageRequest>, now: int) returns (r: Fetched<Page>)
      ensures r == match SMembers(db, now, setKey)
                   case None => Broken(WrongType)
                   case Some(members) =>
                     match PageOfKeys(members, pr)
                     case None => Broken(SliceBounds)
                     case Some(page) => Present(page)
    {
      hide SMembers, TotalPages, Wrap, PageOf, PerPageOf, Sorting.Sorted;
      var page, perPage := Parse(pr);
      var members := SMembers(db, now, setKey);
      if members.None? {
        return Broken(WrongType);
      }
      var keys := Sorting.SortStrings(members.value);
      var total := Wrap(|keys|);
      var offset := Wrap(Wrap(page - 1) * perPage);
      var end := Wrap(offset + perPage);
      if offset > total {
        offset := total;
      }
      if end > total {
        end := total;
      }
      if !(0 <= offset <= end <= |keys|) {
        assert PageOfKeys(members.value, pr).None?;
        return Broken(SliceBounds);
      }
      var info := Info(page, perPage, total);
      assert Slice(keys, page, perPage) == Some(keys[offset..end]);
      r := Present(Page(keys[offset..end], info));
    }

    method CreateFlag(tid: string, flag: FlagDefinition, now: int) returns (r: Response)
      modifies this
      ensures (db, r) == DoCreateFlag(old(db), now, tid, flag)
      ensures Served(Op.CreateFlag(tid, flag), now, r)
    {
      hide CleanStep, Represents, BuildKey;
      Track(Op.CreateFlag(tid, flag), now);
      var f := flag.(createdAt := Unix(now), updatedAt := Unix(now));
      db := Set(db, BuildKey([tid, "flags", f.key]), FlagDoc(f), None);
      var added := SAdd(db, now, BuildKey([tid, "flag_keys"]), f.key);
      if added.None? {
        return Failed(WrongType);
      }
      db := added.value;
      r := FlagIs(Some(f));
    }

    method GetFlag(tid: string, key: string, now: int) returns (r: Response)
      ensures r == DoGetFlag(db, now, tid, key)
      ensures Answers(Op.GetFlag(tid, key), now, r)
    {
      hide CleanStep, Represents, BuildKey;
      Agree(Op.GetFlag(tid, key), now);
      var got := GetFlagDoc(db, now, BuildKey([tid, "flags", key]));
      if got.Broken? {
        return Failed(got.error);
      }
      r := FlagIs(if got.Absent? then None else Some(got.value));
    }

    method ListFlags(tid: string, pr: Option<PageRequest>, now: int) returns (r: Response)
      ensures r == DoListFlags(db, now, tid, pr)
      ensures Answers(Op.ListFlags(tid, pr), now, r)
    {
      hide Answers, BuildKey, Render, SMembers, PageOfKeys, FetchFlags, GetFlagDoc;
      KeysOfListings(tid, "");
      var page := PaginateKeys(BuildKey([tid, "flag_keys"]), pr, now);
      if page.Broken? {
        Agree(Op.ListFlags(tid, pr), now);
        return Failed(page.error);
      }
      var keys := page.value.keys;
      var flags: seq<FlagDefinition> := [];
      FlagsFrom(db, now, tid, keys, 0);
      for i := 0 to |keys|
        invariant flags + FetchFlags(db, now, tid, keys[i..]) == FetchFlags(db, now, tid, keys)
      {
        FlagsFrom(db, now, tid, keys, i);
        KeysOfListings(tid, keys[i]);
        var got := GetFlagDoc(db, now, BuildKey([tid, "flags", keys[i]]));
        if got.Present? {
          Snoc(flags, got.value, FetchFlags(db, now, tid, keys[i + 1..]));
          flags := flags + [got.value];
        }
      }
      FlagsFrom(db, now, tid, keys, |keys|);
      r := FlagPage(flags, page.value.info);
      Agree(Op.ListFlags(tid, pr), now);
    }

    method UpdateFlag(tid: string, flag: FlagDefinition, now: int) returns (r: Response)
      modifies this
      ensures (db, r) == DoUpdateFlag(old(db), now, tid, flag)
      ensures Served(Op.UpdateFlag(tid, flag), now, r)
    {
      hide CleanStep, Represents, BuildKey;
      Track(Op.UpdateFlag(tid, flag), now);
      var key := BuildKey([tid, "flags", flag.key]);
      var got := GetFlagDoc(db, now, key);
      if got.Broken? {
        return Failed(got.error);
      }
      if got.Absent? {
        return Failed(NotFound);
      }
      var f := flag.(createdAt := got.value.createdAt);
      f := f.(updatedAt := Unix(now));
      db := Set(db, key, FlagDoc(f), None);
      r := FlagIs(Some(f));
    }

    method DeleteFlag(tid: string, key: string, now: int) returns (r: Response)
      modifies this
      ensures (db, r) == DoDeleteFlag(old(db), now, tid, key)
      ensures Served(Op.DeleteFlag(tid, key), now, r)
    {
      hide CleanStep, Represents, BuildKey;
      Track(Op.DeleteFlag(tid, key), now);
      db := Del(db, BuildKey([tid, "flags", key]));
      var removed := SRem(db, now, BuildKey([tid, "flag_keys"]), key);
      if removed.None? {
        return Failed(WrongType);
      }
      db := removed.value;
      r := Done;
    }

    method SaveAssignment(tid: string, a: Assignment, now: int) returns (r: Response)
      modifies this
      ensures (db, r) == DoSaveAssignment(old(db), now, tid, a)
      ensures Served(Op.SaveAssignment(tid, a), now, r)
    {
      hide CleanStep, Represents, BuildKey;
      Track(Op.SaveAssignment(tid, a), now);
      var assignedAt := Unix(now);
      if a.assignedAt > 0 {
        assignedAt := a.assignedAt;
      }
      var ad := a.(assignedAt := assignedAt);
      var deadline: Option<int> := None;
      if a.expiresAt > 0 {
        var ttl := a.expiresAt * 1000 - now;
        if ttl <= 0 {
          ttl := 1;
        }
        deadline := Some(now + ttl);
      }
      db := Set(db, BuildKey([tid, "assignments", a.subjectId, a.flagKey]), AssignmentDoc(ad), deadline);
      r := Done;
    }

    method GetAssignment(tid: string, subjectId: string, flagKey: string, now: int) returns (r: Response)
      ensures r == DoGetAssignment(db, now, tid, subjectId, flagKey)
      ensures Answers(Op.GetAssignment(tid, subjectId, flagKey), now, r)
    {
      hide CleanStep, Represents, BuildKey;
      Agree(Op.GetAssignment(tid, subjectId, flagKey), now);
      var got := GetAssignmentDoc(db, now, BuildKey([tid, "assignments", subjectId, flagKey]));
      if got.Broken? {
        return Failed(got.error);
      }
      if got.Absent? {
        return AssignmentIs(None);
      }
      if got.value.expiresAt > 0 && got.value.expiresAt * 1000 < now {
        return AssignmentIs(None);
      }
      r := AssignmentIs(Some(got.value));
    }

    method CreateExperiment(tid: string, experiment: Experiment, now: int) returns (r: Response)
      modifies this
      ensures (db, r) == DoCreateExperiment(old(db), now, tid, experiment)
      ensures Served(Op.CreateExperiment(tid, experiment), now, r)
    {
      hide CleanStep, Represents, BuildKey;
      Track(Op.CreateExperiment(tid, experiment), now);
      var e := experiment.(createdAt := Unix(now), updatedAt := Unix(now));
      db := Set(db, BuildKey([tid, "experiments", e.key]), ExperimentDoc(e), None);
      var added := SAdd(db, now, BuildKey([tid, "experiment_keys"]), e.key);
      if added.None? {
        return Failed(WrongType);
      }
      db := added.value;
      r := ExperimentIs(Some(e));
    }

    method GetExperiment(tid: string, key: string, now: int) returns (r: Response)
      ensures r == DoGetExperiment(db, now, tid, key)
      ensures Answers(Op.GetExperiment(tid, key), now, r)
    {
      hide CleanStep, Represents, BuildKey;
      Agree(Op.GetExperiment(tid, key), now);
      var got := GetExperimentDoc(db, now, BuildKey([tid, "experiments", key]));
      if got.Broken? {
        return Failed(got.error);
      }
      r := ExperimentIs(if got.Absent? then None else Some(got.value));
    }

    method ListExperiments(tid: string, pr: Option<PageRequest>, now: int) returns (r: Response)
      ensures r == DoListExperiments(db, now, tid, pr)
      ensures Answers(Op.ListExperiments(tid, pr), now, r)
    {
      hide Answers, BuildKey, Render, SMembers, PageOfKeys, FetchExperiments, GetExperimentDoc;
      KeysOfListings(tid, "");
      var page := PaginateKeys(BuildKey([tid, "experiment_keys"]), pr, now);
      if page.Broken? {
        Agree(Op.ListExperiments(tid, pr), now);
        return Failed(page.error);
      }
      var keys := page.value.keys;
      var experiments: seq<Experiment> := [];
      ExperimentsFrom(db, now, tid, keys, 0);
      for i := 0 to |keys|
        invariant experiments + FetchExperiments(db, now, tid, keys[i..]) == FetchExperiments(db, now, tid, keys)
      {
        ExperimentsFrom(db, now, tid, keys, i);
        KeysOfListings(tid, keys[i]);
        var got := GetExperimentDoc(db, now, BuildKey([tid, "experiments", keys[i]]));
        if got.Present? {
          Snoc(experiments, got.value, FetchExperiments(db, now, tid, keys[i + 1..]));
          experiments := experiments + [got.value];
        }
      }
      ExperimentsFrom(db, now, tid, keys, |keys|);
      r := ExperimentPage(experiments, page.value.info);
      Agree(Op.ListExperiments(tid, pr), now);
    }

    method UpdateExperiment(tid: string, experiment: Experiment, now: int) returns (r: Response)
      modifies this
      ensures (db, r) == DoUpdateExperiment(old(db), now, tid, experiment)
      ensures Served(Op.UpdateExperiment(tid, experiment), now, r)
    {
      hide CleanStep, Represents, BuildKey;
      Track(Op.UpdateExperiment(tid, experiment), now);
      var key := BuildKey([tid, "experiments", experiment.key]);
      var got := GetExperimentDoc(db, now, key);
      if got.Broken? {
        return Failed(got.error);
      }
      if got.Absent? {
        return Failed(NotFound);
      }
      var e := experiment.(createdAt := got.value.createdAt);
      e := e.(updatedAt := Unix(now));
      db := Set(db, key, ExperimentDoc(e), None);
      r := ExperimentIs(Some(e));
    }

    method CreateAPIKey(tid: string, k: APIKey, now: int) returns (r: Response)
      modifies this
      ensures (db, r) == DoCreateAPIKey(old(db), now, tid, k)
      ensures Served(Op.CreateAPIKey(tid, k), now, r)
    {
      hide CleanStep, Represents, BuildKey;
      Track(Op.CreateAPIKey(tid, k), now);
      var key := APIKey.APIKey(k.id, k.keyHash, k.keyPrefix, k.scope, k.name, k.createdBy, Unix(now), 0);
      db := Set(db, BuildKey([tid, "apikeys", k.id]), ApiKeyDoc(ApiKeyData(tid, key)), None);
      var added := SAdd(db, now, BuildKey([tid, "apikey_ids"]), k.id);
      if added.Some? {
        db := added.value;
      }
      db := Set(db, BuildKey(["apikey_by_hash", k.keyHash]), RefDoc(BuildKey([tid, k.id])), None);
      r := if added.Some? then ApiKeyIs(key) else Failed(WrongType);
    }

    method GetAPIKeyByHash(hash: string, now: int) returns (r: Response)
      ensures r == DoGetAPIKeyByHash(db, now, hash)
      ensures Answers(Op.GetAPIKeyByHash(hash), now, r)
    {
      hide CleanStep, Represents, BuildKey, Cut;
      Agree(Op.GetAPIKeyByHash(hash), now);
      var got := Get(db, now, BuildKey(["apikey_by_hash", hash]));
      if got.Broken? {
        return Failed(got.error);
      }
      if got.Absent? {
        return ApiKeyFound(None);
      }
      if !got.value.RefDoc? {
        return Failed(Undecodable);
      }
      var cut := Cut(got.value.ref);
      if !cut.found {
        return ApiKeyFound(None);
      }
      var ad := GetApiKeyDoc(db, now, BuildKey([cut.before, "apikeys", cut.after]));
      if ad.Broken? {
        return Failed(ad.error);
      }
      if ad.Absent? {
        return ApiKeyFound(None);
      }
      r := ApiKeyFound(Some(Owned(ad.value.key, ad.value.tenantId)));
    }

    method ListAPIKeys(tid: string, pr: Option<PageRequest>, now: int) returns (r: Response)
      ensures r == DoListAPIKeys(db, now, tid, pr)
      ensures Answers(Op.ListAPIKeys(tid, pr), now, r)
    {
      hide Answers, BuildKey, Render, SMembers, PageOfKeys, FetchApiKeys, GetApiKeyDoc;
      KeysOfListings(tid, "");
      var page := PaginateKeys(BuildKey([tid, "apikey_ids"]), pr, now);
      if page.Broken? {
        Agree(Op.ListAPIKeys(tid, pr), now);
        return Failed(page.error);
      }
      var ids := page.value.keys;
      var keys: seq<APIKey> := [];
      ApiKeysFrom(db, now, tid, ids, 0);
      for i := 0 to |ids|
        invariant keys + FetchApiKeys(db, now, tid, ids[i..]) == FetchApiKeys(db, now, tid, ids)
      {
        ApiKeysFrom(db, now, tid, ids, i);
        KeysOfListings(tid, ids[i]);
        var got := GetApiKeyDoc(db, now, BuildKey([tid, "apikeys", ids[i]]));
        if got.Present? {
          Snoc(keys, got.value.key, FetchApiKeys(db, now, tid, ids[i + 1..]));
          keys := keys + [got.value.key];
        }
      }
      ApiKeysFrom(db, now, tid, ids, |ids|);
      r := ApiKeyPage(keys, page.value.info);
      Agree(Op.ListAPIKeys(tid, pr), now);
    }

    method RevokeAPIKey(tid: string, keyId: string, now: int) returns (r: Response)
      modifies this
      ensures (db, r) == DoRevokeAPIKey(old(db), now, tid, keyId)
      ensures Served(Op.RevokeAPIKey(tid, keyId), now, r)
    {
      hide CleanStep, Represents, BuildKey;
      Track(Op.RevokeAPIKey(tid, keyId), now);
      var rkey := BuildKey([tid, "apikeys", keyId]);
      var got := GetApiKeyDoc(db, now, rkey);
      if got.Broken? {
        return Failed(got.error);
      }
      if got.Absent? {
        return Failed(NotFound);
      }
      var ad := got.value;
      ad := ad.(key := ad.key.(revokedAt := Unix(now)));
      db := Set(db, rkey, ApiKeyDoc(ad), None);
      r := Done;
    }

    /** One request from the wire. */
    method Serve(op: Op, now: int) returns (r: Response)
      modifies this
      ensures (db, r) == Step(old(db), op, now)
      ensures Served(op, now, r)
    {
      hide CleanStep, Represents, DoCreateFlag, DoGetFlag, DoListFlags, DoUpdateFlag, DoDeleteFlag, DoSaveAssignment,
           DoGetAssignment, DoCreateExperiment, DoGetExperiment, DoListExperiments, DoUpdateExperiment,
           DoCreateAPIKey, DoGetAPIKeyByHash, DoListAPIKeys, DoRevokeAPIKey;
      match op
      case CreateFlag(t, f) => r := CreateFlag(t, f, now);
      case GetFlag(t, k) => r := GetFlag(t, k, now);
      case ListFlags(t, pr) => r := ListFlags(t, pr, now);
      case UpdateFlag(t, f) => r := UpdateFlag(t, f, now);
      case DeleteFlag(t, k) => r := DeleteFlag(t, k, now);
      case SaveAssignment(t, a) => r := SaveAssignment(t, a, now);
      case GetAssignment(t, s, f) => r := GetAssignment(t, s, f, now);
      case CreateExperiment(t, e) => r := CreateExperiment(t, e, now);
      case GetExperiment(t, k) => r := GetExperiment(t, k, now);
      case ListExperiments(t, pr) => r := ListExperiments(t, pr, now);
      case UpdateExperiment(t, e) => r := UpdateExperiment(t, e, now);
      case CreateAPIKey(t, k) => r := CreateAPIKey(t, k, now);
      case GetAPIKeyByHash(h) => r := GetAPIKeyByHash(h, now);
      case ListAPIKeys(t, pr) => r := ListAPIKeys(t, pr, now);
      case RevokeAPIKey(t, id) => r := RevokeAPIKey(t, id, now);
    }
  }
}
