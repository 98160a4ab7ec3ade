/** An API key that has been created is looked up by its hash as it was created, and revoked as it was revoked. */
module ReadYourKeys {
  import opened Options
  import opened Records
  import opened Keys
  import opened KeyConflicts
  import opened F = FlatStore
  import opened T = TenantStore
  import opened FreshKeys
  import opened Evaluation
  import opened Stickiness
  import opened ReadYourWrites

  /** The six fields that a request to create a key decides. */
  predicate SameKey(k: APIKey, c: APIKey) {
    && k.id == c.id && k.keyHash == c.keyHash && k.keyPrefix == c.keyPrefix && k.scope == c.scope
    && k.name == c.name && k.createdBy == c.createdBy
  }

  /** The key of t, created at that time, and not revoked or revoked at that time. */
  predicate IsKey(k: APIKey, c: APIKey, created: int, revoked: Option<int>) {
    && SameKey(k, c) && InSecond(k.createdAt, created)
    && match revoked
       case None => k.revokedAt == 0
       case Some(r) => InSecond(k.revokedAt, r)
  }

  predicate FindsKey(r: Response, t: string, c: APIKey, created: int, revoked: Option<int>) {
    r.ApiKeyFound? && r.owned.Some? && r.owned.value.tenantId == t && IsKey(r.owned.value.key, c, created, revoked)
  }

  predicate KeyStored(db: Db, t: string, c: APIKey, created: int, revoked: Option<int>) {
    var entry: Option<Entry> := Lookup(db, t + ":apikeys:" + c.id);
    match entry
    case Some(Data(ApiKeyDoc(d), None)) => d.tenantId == t && IsKey(d.key, c, created, revoked)
    case _ => false
  }

  /** The hash leads to the tenant and the id. */
  predicate Refers(db: Db, t: string, c: APIKey) {
    Lookup(db, "apikey_by_hash:" + c.keyHash) == Some(Data(RefDoc(t + ":" + c.id), None))
  }

  lemma ReferenceText(t: string, id: string)
    ensures BuildKey([t, id]) == t + ":" + id
  {
    assert [t, id][1..] == [id];
  }

  lemma StoredKeyIsFound(db: Db, t: string, c: APIKey, created: int, revoked: Option<int>, now: int)
    requires KeyStored(db, t, c, created, revoked) && Refers(db, t, c) && LooksAtItself(t)
    ensures FindsKey(Step(db, GetAPIKeyByHash(c.keyHash), now).1, t, c, created, revoked)
  {
    KeyText(HashPath(c.keyHash));
    KeyText(ApiKeyPath(t, c.id));
    ReferenceText(t, c.id);
    LookupKeyIs(t, c.id);
    LookupIsOwnExactlyWhen(t, c.id);
    hide Render, BuildKey, Cut, LooksAtItself, IsKey;
  }

  lemma CreateRefers(db: Db, t: string, c: APIKey, created: int)
    ensures Refers(Step(db, CreateAPIKey(t, c), created).0, t, c)
  {
    KeyText(HashPath(c.keyHash));
    ReferenceText(t, c.id);
    hide Render, BuildKey, SAdd;
  }

  lemma CreateKeyAnswers(db: Db, t: string, c: APIKey, created: int)
    ensures var r := Step(db, CreateAPIKey(t, c), created).1;
            if NotASet(db, created, t + ":apikey_ids") then r == Failed(WrongType)
            else r.ApiKeyIs? && IsKey(r.key, c, created, None)
  {
    KeyText(ApiKeyIds(t));
    hide Render, BuildKey;
    if Render(ApiKeyPath(t, c.id)) == Render(ApiKeyIds(t)) {
      FamiliesApart(ApiKeyPath(t, c.id), ApiKeyIds(t));
    }
  }

  /** An index entry elsewhere leaves the new record. */
  lemma RecordStays(db: Db, now: int, record: string, doc: Doc, index: string, member: string)
    requires record != index
    ensures var db1 := Set(db, record, doc, None);
            var added := SAdd(db1, now, index, member);
            && Lookup(db1, record) == Some(Data(doc, None))
            && (added.Some? ==> Lookup(added.value, record) == Some(Data(doc, None)))
  {
  }

  lemma CreateKeyStores(db: Db, t: string, c: APIKey, created: int)
    requires "apikey_by_hash:" + c.keyHash != t + ":apikeys:" + c.id
    ensures KeyStored(Step(db, CreateAPIKey(t, c), created).0, t, c, created, None)
  {
    KeyText(HashPath(c.keyHash));
    KeyText(ApiKeyPath(t, c.id));
    var record, index := Render(ApiKeyPath(t, c.id)), Render(ApiKeyIds(t));
    hide Render, BuildKey, SAdd;
    if record == index {
      FamiliesApart(ApiKeyPath(t, c.id), ApiKeyIds(t));
    }
    RecordStays(db, created, record, ApiKeyDoc(ApiKeyData(t, NewApiKey(created, c))), index, c.id);
  }

  /**
   * A created key is found by its hash as the request said, not revoked, whatever the
   * request said about that; its tenant must look where it stores.
   */
  lemma CreatedKeyIsFound(
    cfg: Config, db: Db, t: string, c: APIKey, created: int, later: seq<Event>, now: int)
    requires LooksAtItself(t) && "apikey_by_hash:" + c.keyHash != t + ":apikeys:" + c.id
    requires NoneWrites(cfg, Step(db, CreateAPIKey(t, c), created).0, later, t + ":apikeys:" + c.id)
    requires NoneWrites(cfg, Step(db, CreateAPIKey(t, c), created).0, later, "apikey_by_hash:" + c.keyHash)
    ensures var (db1, r) := Step(db, CreateAPIKey(t, c), created);
            && FindsKey(Step(AfterAll(cfg, db1, later), GetAPIKeyByHash(c.keyHash), now).1, t, c, created, None)
            && if NotASet(db, created, t + ":apikey_ids") then r == Failed(WrongType)
               else r.ApiKeyIs? && IsKey(r.key, c, created, None)
  {
    hide Step, FindsKey, IsKey, NoneWrites, LooksAtItself;
    CreateKeyStores(db, t, c, created);
    CreateRefers(db, t, c, created);
    CreateKeyAnswers(db, t, c, created);
    var db1 := Step(db, CreateAPIKey(t, c), created).0;
    RunLeaves(cfg, db1, later, t + ":apikeys:" + c.id);
    RunLeaves(cfg, db1, later, "apikey_by_hash:" + c.keyHash);
    StoredKeyIsFound(AfterAll(cfg, db1, later), t, c, created, None, now);
  }

  /** Revoking a key that is not there fails and writes nothing. */
  lemma RevokeNeedsKey(db: Db, t: string, id: string, now: int)
    requires t + ":apikeys:" + id !in db
    ensures Step(db, RevokeAPIKey(t, id), now) == (db, Failed(F.NotFound))
  {
    KeyText(ApiKeyPath(t, id));
    hide Render;
  }

  lemma RevokeStores(db: Db, t: string, c: APIKey, created: int, was: Option<int>, now: int)
    requires KeyStored(db, t, c, created, was)
    ensures var (db', r) := Step(db, RevokeAPIKey(t, c.id), now);
            KeyStored(db', t, c, created, Some(now)) && r == Done
  {
    KeyText(ApiKeyPath(t, c.id));
    hide Render;
  }

  /** The key is stored, whether it has been revoked or not. */
  ghost predicate StoredAnyhow(db: Db, t: string, c: APIKey, created: int) {
    exists revoked: Option<int> :: KeyStored(db, t, c, created, revoked)
  }

  lemma {:induction false} RevocationsKeepKey(
    cfg: Config, db: Db, events: seq<Event>, t: string, c: APIKey, created: int)
    requires StoredAnyhow(db, t, c, created) && OnlyRewritten(cfg, db, events, ApiKeyPath(t, c.id))
    ensures StoredAnyhow(AfterAll(cfg, db, events), t, c, created)
    decreases |events|
  {
    if events != [] {
      var e := events[0];
      var was: Option<int> :| KeyStored(db, t, c, created, was);
      KeyText(ApiKeyPath(t, c.id));
      hide EventWrites, Step, Render;
      if Rewrites(e, ApiKeyPath(t, c.id)) {
        RevokeStores(db, t, c, created, was, e.call.now);
        assert KeyStored(After(cfg, db, e), t, c, created, Some(e.call.now));
      } else {
        EventLeaves(cfg, db, e, t + ":apikeys:" + c.id);
        hide After;
        assert KeyStored(After(cfg, db, e), t, c, created, was);
      }
      RevocationsKeepKey(cfg, After(cfg, db, e), events[1..], t, c, created);
    }
  }

  /** The states of a key that is created, perhaps revoked, revoked once more, and then left alone. */
  datatype KeyHistory = KeyHistory(created: Db, before: Db, revoked: Db, last: Db)

  ghost function HistoryOf(
    cfg: Config, db: Db, t: string, c: APIKey, created: int, between: seq<Event>, revoked: int, later: seq<Event>)
    : KeyHistory
  {
    var db0 := Step(db, CreateAPIKey(t, c), created).0;
    var db1 := AfterAll(cfg, db0, between);
    var db2 := Step(db1, RevokeAPIKey(t, c.id), revoked).0;
    KeyHistory(db0, db1, db2, AfterAll(cfg, db2, later))
  }

  /** A revoked key is found with the time of its last revocation, and is otherwise as it was created. */
  lemma RevokedKeyIsFound(
    cfg: Config, db: Db, t: string, c: APIKey, created: int, between: seq<Event>, revoked: int,
    later: seq<Event>, now: int)
    requires LooksAtItself(t) && "apikey_by_hash:" + c.keyHash != t + ":apikeys:" + c.id
    requires var h := HistoryOf(cfg, db, t, c, created, between, revoked, later);
             && OnlyRewritten(cfg, h.created, between, ApiKeyPath(t, c.id))
             && NoneWrites(cfg, h.created, between, "apikey_by_hash:" + c.keyHash)
             && NoneWrites(cfg, h.revoked, later, t + ":apikeys:" + c.id)
             && NoneWrites(cfg, h.revoked, later, "apikey_by_hash:" + c.keyHash)
    ensures var h := HistoryOf(cfg, db, t, c, created, between, revoked, later);
            && FindsKey(Step(h.last, GetAPIKeyByHash(c.keyHash), now).1, t, c, created, Some(revoked))
            && Step(h.before, RevokeAPIKey(t, c.id), revoked).1 == Done
  {
    hide Step, FindsKey, IsKey, NoneWrites, OnlyRewritten, LooksAtItself;
    var h := HistoryOf(cfg, db, t, c, created, between, revoked, later);
    CreateKeyStores(db, t, c, created);
    CreateRefers(db, t, c, created);
    assert StoredAnyhow(h.created, t, c, created);
    RevocationsKeepKey(cfg, h.created, between, t, c, created);
    RunLeaves(cfg, h.created, between, "apikey_by_hash:" + c.keyHash);
    var was: Option<int> :| KeyStored(h.before, t, c, created, was);
    RevokeStores(h.before, t, c, created, was, revoked);
    CallLeaves(h.before, RevokeAPIKey(t, c.id), revoked, "apikey_by_hash:" + c.keyHash);
    RunLeaves(cfg, h.revoked, later, t + ":apikeys:" + c.id);
    RunLeaves(cfg, h.revoked, later, "apikey_by_hash:" + c.keyHash);
    StoredKeyIsFound(h.last, t, c, created, Some(revoked), now);
  }
}
