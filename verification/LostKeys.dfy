/** Exactly which tenants can bring it about that a key that was created is not what its hash leads to. */
module LostKeys {
  import opened Options
  import opened Records
  import opened Keys
  import opened KeyConflicts
  import opened OwnRecords
  import opened F = FlatStore
  import opened T = TenantStore
  import opened Refinement
  import opened Disturbance
  import opened FreshKeys
  import opened IndexCoherence
  import opened ApiKeys

  /** The lookup that ought to give the key with the time of its last revocation gives something else. */
  ghost predicate Lost(t: string, k: APIKey, now: int, after: seq<Call>, at: int) {
    && NoReuse(after, t, k)
    && DoGetAPIKeyByHash(Run(map[], [Call(CreateAPIKey(t, k), now)] + after), at, k.keyHash) !=
       ApiKeyFound(Some(Owned(NewApiKey(now, k).(revokedAt := RevokedAt(after, t, k.id, 0)), t)))
  }

  /** Some run of the two tenants loses a key of t. */
  ghost predicate CanLose(t: string, u: string) {
    exists k: APIKey, now: int, after: seq<Call>, at: int ::
      CallsOfBoth(after, t, u) && Lost(t, k, now, after, at)
  }

  function Created(t: string, k: APIKey): Db {
    DoCreateAPIKey(map[], 0, t, k).0
  }

  lemma OneMoreCall(t: string, k: APIKey, op: Op)
    ensures Run(map[], [Call(CreateAPIKey(t, k), 0)] + [Call(op, 0)]) == Step(Created(t, k), op, 0).0
  {
    OneCall(map[], CreateAPIKey(t, k), 0);
    RunSnoc(map[], [Call(CreateAPIKey(t, k), 0)], Call(op, 0));
    hide Run, DoCreateAPIKey;
  }

  lemma CreationAlone(t: string, k: APIKey, now: int)
    ensures Run(map[], [Call(CreateAPIKey(t, k), now)] + []) == DoCreateAPIKey(map[], now, t, k).0
  {
    OneCall(map[], CreateAPIKey(t, k), now);
    assert [Call(CreateAPIKey(t, k), now)] + [] == [Call(CreateAPIKey(t, k), now)];
    hide Run, DoCreateAPIKey;
  }

  lemma NotFoundIsLost(t: string, u: string, k: APIKey, now: int, at: int)
    requires !Found(map[], t, k, now, at)
    ensures CanLose(t, u)
  {
    hide Run, DoGetAPIKeyByHash, DoCreateAPIKey;
    CreationAlone(t, k, now);
    assert Lost(t, k, now, [], at);
  }

  /** What one more call of u leaves under the hash or under the id decides. */
  lemma OneCallLoses(t: string, u: string, k: APIKey, op: Op)
    requires !op.GetAPIKeyByHash? && op.tenant == u != t
    requires op.CreateAPIKey? ==> op.apiKey.keyHash != k.keyHash
    requires DoGetAPIKeyByHash(Step(Created(t, k), op, 0).0, 0, k.keyHash) !=
             ApiKeyFound(Some(Owned(NewApiKey(0, k), t)))
    ensures CanLose(t, u)
  {
    OneMoreCall(t, k, op);
    var after := [Call(op, 0)];
    hide Run, DoGetAPIKeyByHash, Step, Created;
    assert RevokedAt(after, t, k.id, 0) == 0 by {
      assert after[..0] == [];
    }
    assert NoReuse(after, t, k);
    assert Lost(t, k, 0, after, 0);
  }

  // ---- A caller among the hashes ----

  lemma HashSpaceLoses(t: string, u: string)
    requires t != u && InHashSpace(u)
    ensures CanLose(t, u)
  {
    var h := HashOf(FlagPath(u, "k"));
    var k, op := APIKey("", h, "", "", "", "", 0, 0), Writes(FlagPath(u, "k"), "");
    if Render(FlagPath(u, "k")) == Render(FlagKeys(u)) {
      FamiliesApart(FlagPath(u, "k"), FlagKeys(u));
    }
    hide InHashSpace, Created;
    FlagUnderHash(Created(t, k), u, h);
    OneCallLoses(t, u, k, op);
  }

  lemma FlagUnderHash(db: Db, u: string, h: string)
    requires Render(HashPath(h)) == Render(FlagPath(u, "k")) != Render(FlagKeys(u))
    ensures DoGetAPIKeyByHash(Step(db, Writes(FlagPath(u, "k"), ""), 0).0, 0, h) == Failed(Undecodable)
  {
    hide Render;
  }

  // ---- A caller with keys among those of t ----

  /** A record of another tenant or kind, and so no key k of t. */
  predicate Foreign(entry: Option<Entry>, t: string, id: string) {
    match entry
    case Some(Data(doc, None)) =>
      AsApiKey(doc).Some? && (AsApiKey(doc).value.tenantId != t || AsApiKey(doc).value.key.id != id)
    case _ => false
  }

  lemma AddedRecordStays(db: Db, record: string, doc: Doc, index: string, member: string)
    requires record != index
    ensures var db1 := Set(db, record, doc, None);
            var added := SAdd(db1, 0, index, member);
            && Lookup(db1, record) == Some(Data(doc, None))
            && (added.Some? ==> Lookup(added.value, record) == Some(Data(doc, None)))
  {
  }

  lemma WrittenFlagIsForeign(db: Db, u: string, k: string, t: string, id: string)
    requires id != ""
    ensures Foreign(Slot(Step(db, Writes(FlagPath(u, k), ""), 0).0, FlagPath(u, k)), t, id)
  {
    hide Render, SAdd;
    IndexApart(Flags, u, k);
    AddedRecordStays(db, Render(FlagPath(u, k)), FlagDoc(Writes(FlagPath(u, k), "").flag), Render(FlagKeys(u)), k);
  }

  lemma WrittenExperimentIsForeign(db: Db, u: string, k: string, t: string, id: string)
    requires id != ""
    ensures Foreign(Slot(Step(db, Writes(ExperimentPath(u, k), ""), 0).0, ExperimentPath(u, k)), t, id)
  {
    hide Render, SAdd;
    var path := ExperimentPath(u, k);
    IndexApart(Experiments, u, k);
    AddedRecordStays(db, Render(path), ExperimentDoc(Writes(path, "").experiment), Render(ExperimentKeys(u)), k);
  }

  lemma WrittenKeyIsForeign(db: Db, u: string, k: string, t: string, id: string)
    requires u != t && !InHashSpace(u)
    ensures Foreign(Slot(Step(db, Writes(ApiKeyPath(u, k), ""), 0).0, ApiKeyPath(u, k)), t, id)
  {
    hide Render, SAdd, BuildKey, InHashSpace;
    IndexApart(ApiKeys, u, k);
    HashesElsewhere("", ApiKeys, u);
    assert RecordPath(ApiKeys, u, k) == ApiKeyPath(u, k);
    var doc := ApiKeyDoc(ApiKeyData(u, NewApiKey(0, Writes(ApiKeyPath(u, k), "").apiKey)));
    AddedRecordStays(db, Render(ApiKeyPath(u, k)), doc, Render(ApiKeyIds(u)), k);
  }

  lemma WrittenAssignmentIsForeign(db: Db, u: string, s: string, f: string, t: string, id: string)
    requires id != ""
    ensures Foreign(Slot(Step(db, Writes(AssignmentPath(u, s, f), ""), 0).0, AssignmentPath(u, s, f)), t, id)
  {
    hide Render;
  }

  lemma WrittenIsForeign(db: Db, q: Path, t: string, id: string)
    requires IsRecord(q) && q.tenant != t && !InHashSpace(q.tenant) && id != ""
    ensures Foreign(Slot(Step(db, Writes(q, ""), 0).0, q), t, id)
  {
    hide Render, Step, InHashSpace, Foreign, Writes;
    match q
    case FlagPath(u, k) => WrittenFlagIsForeign(db, u, k, t, id);
    case ExperimentPath(u, k) => WrittenExperimentIsForeign(db, u, k, t, id);
    case AssignmentPath(u, s, f) => WrittenAssignmentIsForeign(db, u, s, f, t, id);
    case ApiKeyPath(u, k) => WrittenKeyIsForeign(db, u, k, t, id);
  }

  lemma ReferenceStays(t: string, k: APIKey, op: Op)
    requires !op.GetAPIKeyByHash? && !InHashSpace(op.tenant) && (op.CreateAPIKey? ==> op.apiKey.keyHash != k.keyHash)
    ensures Slot(Step(Created(t, k), op, 0).0, HashPath(k.keyHash)) == Reference(Some((t, k.id)))
  {
    assert Slot(Created(t, k), HashPath(k.keyHash)) == Reference(Some((t, k.id))) by {
      hide Render, BuildKey, SAdd;
    }
    hide Created, Render, Step, InHashSpace, BuildKey;
    ReferenceStep(Created(t, k), Call(op, 0), k.keyHash);
  }

  lemma ForeignIsFollowed(db: Db, hash: string, t: string, id: string)
    requires LooksAtItself(t) && Slot(db, HashPath(hash)) == Reference(Some((t, id)))
    requires Foreign(Slot(db, ApiKeyPath(t, id)), t, id)
    ensures forall key: APIKey :: key.id == id ==>
              DoGetAPIKeyByHash(db, 0, hash) != ApiKeyFound(Some(Owned(key, t)))
  {
    LookupIsOwnExactlyWhen(t, id);
    LookupKeyIs(t, id);
    hide Render, BuildKey, LooksAtItself, Cut, LookupRoot, AsApiKey;
  }

  /** A record of u under the key of an API key of t takes its place. */
  lemma OverwrittenIsLost(q: Path, t: string, id: string)
    requires IsRecord(q) && q.tenant != t && !InHashSpace(q.tenant) && id != "" && LooksAtItself(t)
    requires Render(q) == Render(ApiKeyPath(t, id))
    ensures CanLose(t, q.tenant)
  {
    var k, op := APIKey(id, "h", "", "", "", "", 0, 0), Writes(q, "");
    var db := Step(Created(t, k), op, 0).0;
    assert !op.GetAPIKeyByHash? && op.tenant == q.tenant && (op.CreateAPIKey? ==> op.apiKey.keyHash != k.keyHash);
    hide Render, Step, InHashSpace, Created, Foreign, Writes, LooksAtItself, DoGetAPIKeyByHash;
    WrittenIsForeign(Created(t, k), q, t, id);
    ReferenceStays(t, k, op);
    ForeignIsFollowed(db, "h", t, id);
    OneCallLoses(t, q.tenant, k, op);
  }

  lemma ExtendingTenantLoses(t: string, u: string)
    requires Extends(u, t) && !InHashSpace(u) && LooksAtItself(t)
    ensures CanLose(t, u)
  {
    CutOfAppended("apikeys", "k");
    ExtensionDiffers(u, t);
    hide Extends, InHashSpace, LooksAtItself, Render, CanLose;
    var q := ExtendedRecord(u, t, "apikeys" + (":" + "k"));
    ApiKeyKeyIs(t, "k");
    OverwrittenIsLost(q, t, "k");
  }

  lemma ExtendedTenantLoses(t: string, u: string)
    requires ExtendsBy(t, u, "apikeys") && !InHashSpace(u) && LooksAtItself(t)
    ensures CanLose(t, u)
  {
    var c, tail := Cut(u[|t| + 1..]), "flags" + (":" + "k");
    var id := if c.found then c.after + (":" + tail) else tail;
    assert id != "";
    ExtensionDiffers(t, u);
    TailWithin(t, u, "apikeys", tail);
    FlagKeyIs(u, "k");
    ApiKeyKeyIs(t, id);
    hide ExtendsBy, InHashSpace, LooksAtItself, Render, CanLose, Cut;
    OverwrittenIsLost(FlagPath(u, "k"), t, id);
  }

  // ---- The exact condition ----

  lemma CreatedFirst(t: string, k: APIKey, now: int, after: seq<Call>)
    ensures Run(map[], [Call(CreateAPIKey(t, k), now)] + after) ==
            Run(Step(map[], CreateAPIKey(t, k), now).0, after)
  {
    hide Step;
    var calls := [Call(CreateAPIKey(t, k), now)] + after;
    assert calls[1..] == after;
  }

  lemma NeverLost(t: string, u: string, k: APIKey, now: int, after: seq<Call>, at: int)
    requires LooksAtItself(t) && !InHashSpace(t) && !InHashSpace(u) && Spares(u, t, ApiKeys)
    requires CallsOfBoth(after, t, u)
    ensures !Lost(t, k, now, after, at)
  {
    assert Unharmful(after, t) by {
      assert Spares(t, t, ApiKeys);
      hide InHashSpace, Spares;
    }
    CreatedFirst(t, k, now, after);
    hide Unharmful, LooksAtItself, InHashSpace, Spares, DoGetAPIKeyByHash, Run, Step;
    if NoReuse(after, t, k) {
      LookupByHash(map[], t, k, now, after, at);
    }
  }

  /**
   * For any two tenants: some calls of the two, none of which uses its id or hash
   * again, keep a key of t from being what its hash leads to if and only if t is not
   * looked up where it stores, one of the two is among the hashes, or u has keys
   * among those of t.
   */
  lemma KeyIsLostExactlyWhen(t: string, u: string)
    requires t != u
    ensures CanLose(t, u) <==>
            || !LooksAtItself(t) || InHashSpace(t) || InHashSpace(u)
            || Extends(u, t) || ExtendsBy(t, u, "apikeys")
  {
    if !LooksAtItself(t) || InHashSpace(t) {
      EveryKeyFoundExactlyWhen(t);
      hide LooksAtItself, InHashSpace, Extends, ExtendsBy, CanLose, Found;
      var k: APIKey, now: int, at: int :| !Found(map[], t, k, now, at);
      NotFoundIsLost(t, u, k, now, at);
    } else if InHashSpace(u) {
      HashSpaceLoses(t, u);
    } else if Extends(u, t) {
      ExtendingTenantLoses(t, u);
    } else if ExtendsBy(t, u, "apikeys") {
      ExtendedTenantLoses(t, u);
    } else {
      hide LooksAtItself, InHashSpace, Extends, ExtendsBy, Lost;
      forall k: APIKey, now: int, after: seq<Call>, at: int | CallsOfBoth(after, t, u)
        ensures !Lost(t, k, now, after, at)
      {
        NeverLost(t, u, k, now, after, at);
      }
    }
  }
}
