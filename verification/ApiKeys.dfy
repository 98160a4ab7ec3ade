/** API keys through the hash index: what a lookup by hash gives, over whole runs. */
module ApiKeys {
  import opened Options
  import opened Records
  import opened Keys
  import opened KeyConflicts
  import opened F = FlatStore
  import opened T = TenantStore
  import opened Refinement
  import opened FreshKeys
  import opened IndexCoherence

  /** Every hash leads to the key with that hash, and every key is found under its own hash. */
  ghost predicate Coherent(c: Clean) {
    && (forall h :: h in c.hashes ==> c.hashes[h] in c.apiKeys && c.apiKeys[c.hashes[h]].keyHash == h)
    && (forall p :: p in c.apiKeys ==> c.apiKeys[p].keyHash in c.hashes && c.hashes[c.apiKeys[p].keyHash] == p)
  }

  /** The id and the hash are both new, or both are those of one existing key. */
  predicate Admissible(c: Clean, t: string, k: APIKey) {
    var p := (t, k.id);
    (p in c.apiKeys || k.keyHash in c.hashes) ==>
      p in c.apiKeys && k.keyHash in c.hashes && c.hashes[k.keyHash] == p
  }

  /** Exactly which creations keep the hash index coherent. */
  lemma CreationKeepsCoherenceExactlyWhen(c: Clean, t: string, k: APIKey, now: int)
    requires Coherent(c)
    ensures Coherent(CleanStep(c, CreateAPIKey(t, k), now).0) <==> Admissible(c, t, k)
  {
    var p, h := (t, k.id), k.keyHash;
    var c' := CleanStep(c, CreateAPIKey(t, k), now).0;
    assert c'.apiKeys == c.apiKeys[p := NewApiKey(now, k)] && c'.hashes == c.hashes[h := p];
    if Coherent(c') {
      if p in c.apiKeys {
        var old_ := c.apiKeys[p].keyHash;
        assert old_ in c'.hashes && c'.hashes[old_] == p;
      }
      if h in c.hashes {
        var q := c.hashes[h];
        assert q in c'.apiKeys && c'.apiKeys[q].keyHash == h;
      }
    }
  }

  lemma OtherCallsKeepCoherence(c: Clean, op: Op, now: int)
    requires Coherent(c) && !op.CreateAPIKey?
    ensures Coherent(CleanStep(c, op, now).0)
  {
    hide ReadOnly;
  }

  // ---- What a run leaves under a hash and under an id ----

  /** The tenant and id of the last key created with the hash. */
  function LastWithHash(calls: seq<Call>, hash: string): Option<(string, string)> {
    if calls == [] then None
    else
      var op := calls[|calls| - 1].op;
      if op.CreateAPIKey? && op.apiKey.keyHash == hash then Some((op.tenant, op.apiKey.id))
      else LastWithHash(calls[..|calls| - 1], hash)
  }

  /** The key of a tenant and id after one more call. */
  function NextKey(call: Call, t: string, id: string, before: Option<APIKey>): Option<APIKey> {
    if call.op.CreateAPIKey? && call.op.tenant == t && call.op.apiKey.id == id then
      Some(NewApiKey(call.now, call.op.apiKey))
    else if before.Some? && call.op == RevokeAPIKey(t, id) then Some(before.value.(revokedAt := Unix(call.now)))
    else before
  }

  /** The last key created under the tenant and id, with the time of its last revocation. */
  function LastWithId(calls: seq<Call>, t: string, id: string): Option<APIKey> {
    if calls == [] then None
    else NextKey(calls[|calls| - 1], t, id, LastWithId(calls[..|calls| - 1], t, id))
  }

  function Reference(holder: Option<(string, string)>): Option<Entry> {
    match holder
    case None => None
    case Some((t, id)) => Some(Data(RefDoc(BuildKey([t, id])), None))
  }

  function Record(t: string, key: Option<APIKey>): Option<Entry> {
    match key
    case None => None
    case Some(k) => Some(Data(ApiKeyDoc(ApiKeyData(t, k)), None))
  }

  /** No caller lies among the hashes. */
  ghost predicate OutsideHashes(calls: seq<Call>) {
    forall call <- calls :: call.op.GetAPIKeyByHash? || !InHashSpace(call.op.tenant)
  }

  /** No caller has keys among the API keys of t. */
  ghost predicate AllSpare(calls: seq<Call>, t: string) {
    forall call <- calls :: CallSpares(call.op, t, ApiKeys)
  }

  lemma {:induction false} RunSnoc(db: Db, calls: seq<Call>, call: Call)
    ensures Run(db, calls + [call]) == Step(Run(db, calls), call.op, call.now).0
    decreases |calls|
  {
    hide Step;
    var all := calls + [call];
    if calls == [] {
      assert all[1..] == [];
    } else {
      assert all[0] == calls[0] && all[1..] == calls[1..] + [call];
      RunSnoc(Step(db, calls[0].op, calls[0].now).0, calls[1..], call);
    }
  }

  lemma ReferenceStep(db: Db, call: Call, hash: string)
    requires call.op.GetAPIKeyByHash? || !InHashSpace(call.op.tenant)
    ensures Slot(Step(db, call.op, call.now).0, HashPath(hash)) ==
            if call.op.CreateAPIKey? && call.op.apiKey.keyHash == hash
            then Reference(Some((call.op.tenant, call.op.apiKey.id))) else Slot(db, HashPath(hash))
  {
    if call.op.CreateAPIKey? && call.op.apiKey.keyHash == hash {
      hide Render, BuildKey, InHashSpace, SAdd;
    } else {
      forall q: Path | Touches(call.op, q)
        ensures Render(q) != Render(HashPath(hash))
      {
        hide Render, InHashSpace;
        if Render(q) == Render(HashPath(hash)) {
          if q.HashPath? {
            RenderIsInjective(q, HashPath(hash));
          } else {
            TouchedPath(call.op, q, ApiKeys);
            HashKeysApart(q, hash);
          }
        }
      }
      hide Render, Step, InHashSpace;
      StepLeaves(db, call.op, call.now, Render(HashPath(hash)));
    }
  }

  lemma RecordStep(db: Db, call: Call, t: string, id: string, before: Option<APIKey>)
    requires !InHashSpace(t) && CallSpares(call.op, t, ApiKeys)
    requires Slot(db, ApiKeyPath(t, id)) == Record(t, before)
    ensures Slot(Step(db, call.op, call.now).0, ApiKeyPath(t, id)) == Record(t, NextKey(call, t, id, before))
  {
    if call.op.CreateAPIKey? && call.op.tenant == t && call.op.apiKey.id == id {
      IndexApart(ApiKeys, t, id);
      HashesElsewhere(call.op.apiKey.keyHash, ApiKeys, t);
      assert RecordPath(ApiKeys, t, id) == ApiKeyPath(t, id);
      hide Render, BuildKey, InHashSpace;
    } else if call.op == RevokeAPIKey(t, id) {
      hide Render, InHashSpace;
    } else {
      forall q: Path | Touches(call.op, q)
        ensures Render(q) != Render(ApiKeyPath(t, id))
      {
        OtherCallElsewhere(call.op, q, t, id);
      }
      hide Render, Step, InHashSpace;
      StepLeaves(db, call.op, call.now, Render(ApiKeyPath(t, id)));
    }
  }

  lemma OtherCallElsewhere(op: Op, q: Path, t: string, id: string)
    requires !InHashSpace(t) && CallSpares(op, t, ApiKeys) && Touches(op, q)
    requires !(op.CreateAPIKey? && op.tenant == t && op.apiKey.id == id) && op != RevokeAPIKey(t, id)
    ensures Render(q) != Render(ApiKeyPath(t, id))
  {
    assert RecordPath(ApiKeys, t, id) == ApiKeyPath(t, id);
    hide Render, InHashSpace;
    if Concerns(op, ApiKeys) && op.tenant == t {
      if q.HashPath? {
        HashesElsewhere(q.hash, ApiKeys, t);
      } else if q.ApiKeyPath? {
        ApiKeysApart(t, q.id, id);
      } else {
        IndexApart(ApiKeys, t, id);
      }
    } else {
      TouchedElsewhere(op, q, ApiKeys, t);
    }
  }

  /** Under a hash is a reference to the last key that was created with it. */
  lemma {:induction false} ReferenceHeld(calls: seq<Call>, hash: string)
    requires OutsideHashes(calls)
    ensures Slot(Run(map[], calls), HashPath(hash)) == Reference(LastWithHash(calls, hash))
    decreases |calls|
  {
    hide Render, Step, InHashSpace, BuildKey;
    if calls != [] {
      var init, last := calls[..|calls| - 1], calls[|calls| - 1];
      assert calls == init + [last];
      RunSnoc(map[], init, last);
      ReferenceHeld(init, hash);
      ReferenceStep(Run(map[], init), last, hash);
    }
  }

  /** Under a tenant and id is the last key that was created for them. */
  lemma {:induction false} RecordHeld(calls: seq<Call>, t: string, id: string)
    requires !InHashSpace(t) && AllSpare(calls, t)
    ensures Slot(Run(map[], calls), ApiKeyPath(t, id)) == Record(t, LastWithId(calls, t, id))
    decreases |calls|
  {
    hide Render, Step, InHashSpace, CallSpares, NextKey;
    if calls != [] {
      var init, last := calls[..|calls| - 1], calls[|calls| - 1];
      assert calls == init + [last];
      RunSnoc(map[], init, last);
      RecordHeld(init, t, id);
      RecordStep(Run(map[], init), last, t, id, LastWithId(init, t, id));
    }
  }

  lemma {:induction false} LastHasItsId(calls: seq<Call>, t: string, id: string)
    ensures LastWithId(calls, t, id).Some? ==> LastWithId(calls, t, id).value.id == id
    decreases |calls|
  {
    if calls != [] {
      LastHasItsId(calls[..|calls| - 1], t, id);
    }
  }

  /** Whoever holds a hash has been created, by a call of that tenant. */
  lemma {:induction false} HolderIsThere(calls: seq<Call>, hash: string)
    ensures var holder := LastWithHash(calls, hash);
            holder.Some? ==>
              && LastWithId(calls, holder.value.0, holder.value.1).Some?
              && exists call <- calls :: call.op.CreateAPIKey? && call.op.tenant == holder.value.0
    decreases |calls|
  {
    if calls != [] {
      var init := calls[..|calls| - 1];
      HolderIsThere(init, hash);
      assert calls[|calls| - 1] in calls && forall call <- init :: call in calls;
    }
  }

  // ---- Lookups ----

  /** The last key created under the tenant and id of the last key with the hash. */
  function LastKeyOf(calls: seq<Call>, hash: string): APIKey
    requires LastWithHash(calls, hash).Some?
  {
    HolderIsThere(calls, hash);
    var (t, id) := LastWithHash(calls, hash).value;
    LastWithId(calls, t, id).value
  }

  /** A lookup follows a reference of a tenant that is looked up where it stores. */
  lemma FollowReference(db: Db, hash: string, t: string, id: string, key: APIKey, at: int)
    requires LooksAtItself(t) && Slot(db, HashPath(hash)) == Reference(Some((t, id)))
    requires Slot(db, ApiKeyPath(t, id)) == Record(t, Some(key))
    ensures DoGetAPIKeyByHash(db, at, hash) == ApiKeyFound(Some(Owned(key, t)))
  {
    LookupIsOwnExactlyWhen(t, id);
    LookupKeyIs(t, id);
    hide Render, BuildKey, LooksAtItself, Cut, LookupRoot;
  }

  /**
   * Over every run of calls, whatever ids and hashes they use again, and whatever
   * the subjects are called: a lookup by hash gives the last key created under the
   * tenant and id of the last key created with that hash, and nothing if there has
   * been none. No caller is among the hashes, and that tenant is looked up where it
   * stores and has no other caller's keys among its own.
   */
  lemma LookupGivesLast(calls: seq<Call>, hash: string, at: int)
    requires OutsideHashes(calls)
    requires var holder := LastWithHash(calls, hash);
             holder.Some? ==> LooksAtItself(holder.value.0) && AllSpare(calls, holder.value.0)
    ensures DoGetAPIKeyByHash(Run(map[], calls), at, hash) ==
            match LastWithHash(calls, hash)
            case None => ApiKeyFound(None)
            case Some(holder) => ApiKeyFound(Some(Owned(LastKeyOf(calls, hash), holder.0)))
  {
    var db, holder := Run(map[], calls), LastWithHash(calls, hash);
    ReferenceHeld(calls, hash);
    HolderIsThere(calls, hash);
    hide Run, LastWithHash, LastWithId, LooksAtItself, Render, InHashSpace, AllSpare;
    if holder.Some? {
      var (t, id) := holder.value;
      RecordHeld(calls, t, id);
      FollowReference(db, hash, t, id, LastWithId(calls, t, id).value, at);
    }
  }

  // ---- One key ----

  /** No later creation uses the tenant and id, or the hash. */
  ghost predicate NoReuse(calls: seq<Call>, t: string, k: APIKey) {
    forall call <- calls :: call.op.CreateAPIKey? ==>
      (call.op.tenant, call.op.apiKey.id) != (t, k.id) && call.op.apiKey.keyHash != k.keyHash
  }

  /** The revocation time that a key has after the calls: the clock of the last revocation. */
  function RevokedAt(calls: seq<Call>, t: string, id: string, before: int): int {
    if calls == [] then before
    else if calls[|calls| - 1].op == RevokeAPIKey(t, id) then Unix(calls[|calls| - 1].now)
    else RevokedAt(calls[..|calls| - 1], t, id, before)
  }

  lemma {:induction false} LastWithHashAppend(a: seq<Call>, b: seq<Call>, hash: string)
    ensures LastWithHash(a + b, hash) ==
            if LastWithHash(b, hash).Some? then LastWithHash(b, hash) else LastWithHash(a, hash)
    decreases |b|
  {
    if b == [] {
      assert a + b == a;
    } else {
      var n := |b| - 1;
      assert (a + b)[..|a + b| - 1] == a + b[..n] && (a + b)[|a + b| - 1] == b[n];
      LastWithHashAppend(a, b[..n], hash);
    }
  }

  lemma HolderAfter(before: seq<Call>, t: string, k: APIKey, now: int, after: seq<Call>)
    ensures LastWithHash(before + [Call(CreateAPIKey(t, k), now)] + after, k.keyHash) ==
            if LastWithHash(after, k.keyHash).Some? then LastWithHash(after, k.keyHash) else Some((t, k.id))
  {
    var head := before + [Call(CreateAPIKey(t, k), now)];
    assert head[|head| - 1] == Call(CreateAPIKey(t, k), now);
    LastWithHashAppend(head, after, k.keyHash);
  }

  /** The callers leave the API keys of t alone, and the hashes. */
  ghost predicate Unharmful(calls: seq<Call>, t: string) {
    OutsideHashes(calls) && AllSpare(calls, t)
  }

  /** The reference and the record that belong to a key of t. */
  predicate Holds(db: Db, t: string, key: APIKey) {
    && Slot(db, HashPath(key.keyHash)) == Reference(Some((t, key.id)))
    && Slot(db, ApiKeyPath(t, key.id)) == Record(t, Some(key))
  }

  /** A creation leaves both, whatever was there before. */
  lemma CreatedIsHeld(db: Db, t: string, k: APIKey, now: int)
    requires !InHashSpace(t)
    ensures Holds(Step(db, CreateAPIKey(t, k), now).0, t, NewApiKey(now, k))
  {
    IndexApart(ApiKeys, t, k.id);
    HashesElsewhere(k.keyHash, ApiKeys, t);
    assert RecordPath(ApiKeys, t, k.id) == ApiKeyPath(t, k.id);
    hide Render, BuildKey, InHashSpace;
  }

  /** Later calls without reuse keep both, up to the time of the last revocation. */
  lemma {:induction false} KeptByRun(db: Db, t: string, key: APIKey, calls: seq<Call>)
    requires !InHashSpace(t) && Unharmful(calls, t) && NoReuse(calls, t, key) && Holds(db, t, key)
    ensures Holds(Run(db, calls), t, key.(revokedAt := RevokedAt(calls, t, key.id, key.revokedAt)))
    decreases |calls|
  {
    if calls != [] {
      var init, last := calls[..|calls| - 1], calls[|calls| - 1];
      assert calls == init + [last] && last in calls;
      hide Step, InHashSpace, CallSpares, Render, Reference, Record;
      RunSnoc(db, init, last);
      KeptByRun(db, t, key, init);
      var before := key.(revokedAt := RevokedAt(init, t, key.id, key.revokedAt));
      ReferenceStep(Run(db, init), last, key.keyHash);
      RecordStep(Run(db, init), last, t, key.id, Some(before));
    }
  }

  /**
   * Whatever the store held when the key was created: after any later calls, looking
   * it up by its hash finds that very key under its own tenant, and its revocation
   * time is that of the last revocation since, provided neither its id (within the
   * tenant) nor its hash is used for a later key. The tenant is looked up where it
   * stores, which holds of every id without a colon.
   */
  lemma LookupByHash(db: Db, t: string, k: APIKey, now: int, after: seq<Call>, at: int)
    requires LooksAtItself(t) && !InHashSpace(t) && Unharmful(after, t) && NoReuse(after, t, k)
    ensures DoGetAPIKeyByHash(Run(Step(db, CreateAPIKey(t, k), now).0, after), at, k.keyHash) ==
            ApiKeyFound(Some(Owned(NewApiKey(now, k).(revokedAt := RevokedAt(after, t, k.id, 0)), t)))
  {
    var key, db1 := NewApiKey(now, k), Step(db, CreateAPIKey(t, k), now).0;
    CreatedIsHeld(db, t, k, now);
    assert NoReuse(after, t, key);
    hide LooksAtItself, InHashSpace, Unharmful, NoReuse, RevokedAt, Run, Step, DoGetAPIKeyByHash;
    KeptByRun(db1, t, key, after);
    var last := key.(revokedAt := RevokedAt(after, t, k.id, 0));
    FollowReference(Run(db1, after), k.keyHash, t, k.id, last, at);
  }

  ghost predicate Revokes(calls: seq<Call>, t: string, id: string) {
    exists i :: 0 <= i < |calls| && calls[i].op == RevokeAPIKey(t, id)
  }

  ghost predicate ClockRuns(calls: seq<Call>) {
    forall call <- calls :: call.now >= 1000
  }

  /** The last revocation time is nonzero exactly when there has been a revocation. */
  lemma {:induction false} RevokedExactlyWhen(calls: seq<Call>, t: string, id: string, before: int)
    requires ClockRuns(calls)
    ensures RevokedAt(calls, t, id, before) != 0 <==> before != 0 || Revokes(calls, t, id)
    decreases |calls|
  {
    if calls != [] {
      var init, last := calls[..|calls| - 1], calls[|calls| - 1];
      RevokedExactlyWhen(init, t, id, before);
      if last.op == RevokeAPIKey(t, id) {
        assert last in calls && last.now >= 1000;
      }
      if Revokes(init, t, id) {
        var i :| 0 <= i < |init| && init[i].op == RevokeAPIKey(t, id);
        assert calls[i].op == RevokeAPIKey(t, id);
      }
      if Revokes(calls, t, id) && last.op != RevokeAPIKey(t, id) {
        var i :| 0 <= i < |calls| && calls[i].op == RevokeAPIKey(t, id);
        assert init[i].op == RevokeAPIKey(t, id);
      }
    }
  }

  /** In every later state the store reports a key as revoked exactly when it has been revoked. */
  lemma ReportedRevokedExactlyWhen(db: Db, t: string, k: APIKey, now: int, after: seq<Call>, at: int)
    requires LooksAtItself(t) && !InHashSpace(t) && Unharmful(after, t)
    requires NoReuse(after, t, k) && ClockRuns(after)
    ensures var answer := DoGetAPIKeyByHash(Run(Step(db, CreateAPIKey(t, k), now).0, after), at, k.keyHash);
            && answer.ApiKeyFound? && answer.owned.Some?
            && (answer.owned.value.key.revokedAt != 0 <==> Revokes(after, t, k.id))
  {
    hide LooksAtItself, InHashSpace, Unharmful, NoReuse, Run, Step, DoGetAPIKeyByHash, RevokedAt, Revokes;
    LookupByHash(db, t, k, now, after, at);
    RevokedExactlyWhen(after, t, k.id, 0);
  }

  // ---- Ids and hashes that are used again ----

  /** The lookup leads to this tenant and id. */
  predicate LeadsTo(answer: Response, t: string, id: string) {
    answer.ApiKeyFound? && answer.owned.Some? && answer.owned.value.tenantId == t && answer.owned.value.key.id == id
  }

  /** No later creation takes the hash to another tenant or id. */
  predicate HashStays(after: seq<Call>, t: string, k: APIKey) {
    var last := LastWithHash(after, k.keyHash);
    last.None? || last == Some((t, k.id))
  }

  /** No caller is among the hashes or has keys among those of another, and all are looked up where they store. */
  ghost predicate Regular(calls: seq<Call>) {
    && OutsideHashes(calls)
    && forall call <- calls :: call.op.GetAPIKeyByHash? ||
         (LooksAtItself(call.op.tenant) && AllSpare(calls, call.op.tenant))
  }

  lemma LeadsToHolder(calls: seq<Call>, hash: string, at: int, t: string, id: string)
    requires Regular(calls) && LastWithHash(calls, hash).Some?
    ensures LeadsTo(DoGetAPIKeyByHash(Run(map[], calls), at, hash), t, id) <==>
            LastWithHash(calls, hash) == Some((t, id))
  {
    HolderIsThere(calls, hash);
    var holder := LastWithHash(calls, hash).value;
    LastHasItsId(calls, holder.0, holder.1);
    hide OutsideHashes, AllSpare, LooksAtItself, Run, LastWithHash, LastWithId, DoGetAPIKeyByHash;
    LookupGivesLast(calls, hash, at);
  }

  /**
   * Exactly when a key is still found by its hash after any later calls: if and
   * only if the last of them that creates a key with that hash, if any does, gives
   * it the same tenant and id.
   */
  lemma LookupByHashExactlyWhen(before: seq<Call>, t: string, k: APIKey, now: int, after: seq<Call>, at: int)
    requires Regular(before + [Call(CreateAPIKey(t, k), now)] + after)
    ensures var calls := before + [Call(CreateAPIKey(t, k), now)] + after;
            LeadsTo(DoGetAPIKeyByHash(Run(map[], calls), at, k.keyHash), t, k.id) <==> HashStays(after, t, k)
  {
    var calls := before + [Call(CreateAPIKey(t, k), now)] + after;
    HolderAfter(before, t, k, now, after);
    hide Regular, Run, LastWithHash, DoGetAPIKeyByHash, LeadsTo;
    LeadsToHolder(calls, k.keyHash, at, t, k.id);
  }

  /**
   * The HTTP handler sends an empty id. Two keys of one tenant then share a
   * record, and the first key's hash leads to the second key.
   */
  lemma EmptyIdsOverwrite(t: string, k1: APIKey, k2: APIKey, now: int, at: int)
    requires LooksAtItself(t) && !InHashSpace(t) && k1.id == k2.id == "" && k1.keyHash != k2.keyHash
    ensures var calls := [Call(CreateAPIKey(t, k1), now), Call(CreateAPIKey(t, k2), now)];
            DoGetAPIKeyByHash(Run(map[], calls), at, k1.keyHash) == ApiKeyFound(Some(Owned(NewApiKey(now, k2), t)))
  {
    var calls := [Call(CreateAPIKey(t, k1), now), Call(CreateAPIKey(t, k2), now)];
    assert calls[..1] == [calls[0]] && calls[..1][..0] == [];
    assert LastWithHash(calls[..1], k1.keyHash) == Some((t, ""));
    assert LastWithHash(calls, k1.keyHash) == Some((t, ""));
    assert LastKeyOf(calls, k1.keyHash) == NewApiKey(now, k2);
    assert forall call <- calls :: CallSpares(call.op, t, ApiKeys);
    hide LooksAtItself, InHashSpace, LastWithHash, LastKeyOf, Run, DoGetAPIKeyByHash, CallSpares;
    LookupGivesLast(calls, k1.keyHash, at);
  }
}
