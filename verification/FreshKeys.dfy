/** Exactly when an API key can be found by its hash once it has been created. */
module FreshKeys {
  import opened Options
  import opened Records
  import opened Strings
  import opened Keys
  import opened KeyConflicts
  import opened F = FlatStore
  import opened Disturbance

  /** Nothing but the word apikeys, once or several times with colons between. */
  predicate OnlyApiKeys(w: string)
    decreases |w|
  {
    CutShortens(w);
    Cut(w).before == "apikeys" && (Cut(w).found ==> OnlyApiKeys(Cut(w).after))
  }

  lemma CutShortens(w: string)
    ensures Cut(w).found ==> |Cut(w).after| < |w|
  {
    JoinUndoesCut(w);
  }

  /** A tenant whose keys are looked up where they are stored. */
  predicate LooksAtItself(t: string) {
    Cut(t).found ==> OnlyApiKeys(Cut(t).after)
  }

  /** Moving the word from the front to the back makes no difference only to repetitions of it. */
  lemma {:induction false} SameRotated(w: string)
    ensures w + (":" + "apikeys") == "apikeys" + (":" + w) <==> OnlyApiKeys(w)
    decreases |w|
  {
    assert NoColon("apikeys");
    CutUndoesJoin("apikeys", w);
    CutOfJoin(w, "apikeys");
    CutShortens(w);
    JoinUndoesCut(w);
    if Cut(w).found {
      SameRotated(Cut(w).after);
      hide Cut;
      if Cut(w).before == "apikeys" {
        Regroup2("apikeys", Cut(w).after, "apikeys");
        if Cut(w).after + (":" + "apikeys") == w {
          assert w + (":" + "apikeys") == "apikeys" + (":" + w);
        }
      }
    }
  }

  lemma LookupIsOwnExactlyWhen(t: string, id: string)
    ensures LookupKey(t, id) == Render(ApiKeyPath(t, id)) <==> LooksAtItself(t)
  {
    LookupKeyIs(t, id);
    if Cut(t).found {
      JoinUndoesCut(t);
      OwnKeyIs(Cut(t).before, Cut(t).after, id);
      SameRotated(Cut(t).after);
      hide Render, LookupKey, OnlyApiKeys, Cut;
      SameInside(Cut(t).before, Cut(t).after + (":" + "apikeys"), "apikeys" + (":" + Cut(t).after), id);
    }
  }

  lemma OwnKeyIs(s: string, w: string, id: string)
    ensures Render(ApiKeyPath(s + (":" + w), id)) == (s + (":" + (w + (":" + "apikeys")))) + (":" + id)
  {
    var t := s + (":" + w);
    RenderThree(t, "apikeys", id);
    Regroup2(s, w, "apikeys" + (":" + id));
    Regroup2(w, "apikeys", id);
    Regroup2(s, w + (":" + "apikeys"), id);
  }

  lemma SameInside(s: string, a: string, b: string, id: string)
    requires |a| == |b|
    ensures (s + (":" + a)) + (":" + id) == (s + (":" + b)) + (":" + id) <==> a == b
  {
    var x, y := (s + (":" + a)) + (":" + id), (s + (":" + b)) + (":" + id);
    assert x[|s| + 1..|s| + 1 + |a|] == a && y[|s| + 1..|s| + 1 + |b|] == b;
  }

  /** No record of this tenant and id is stored anywhere. */
  ghost predicate Fresh(db: Db, t: string, id: string) {
    forall key :: key in db && db[key].Data? && db[key].doc.ApiKeyDoc? ==>
      !(db[key].doc.apiKey.tenantId == t && db[key].doc.apiKey.key.id == id)
  }

  predicate Found(db: Db, t: string, k: APIKey, now: int, at: int) {
    DoGetAPIKeyByHash(DoCreateAPIKey(db, now, t, k).0, at, k.keyHash) ==
    ApiKeyFound(Some(Owned(NewApiKey(now, k), t)))
  }

  /**
   * A key just created is found by its hash if and only if its tenant looks where it
   * stores, and the reference did not take the place of the record.
   */
  lemma FoundExactlyWhen(db: Db, t: string, k: APIKey, now: int, at: int)
    requires Fresh(db, t, k.id)
    ensures Found(db, t, k, now, at) <==>
            LooksAtItself(t) && Render(HashPath(k.keyHash)) != Render(ApiKeyPath(t, k.id))
  {
    LookupIsOwnExactlyWhen(t, k.id);
    LookupKeyIs(t, k.id);
    if Render(ApiKeyPath(t, k.id)) == Render(ApiKeyIds(t)) {
      FamiliesApart(ApiKeyPath(t, k.id), ApiKeyIds(t));
    }
    assert Cut(t).found ==> t != "";
    LooksHere(db, t, k, now, at);
  }

  lemma LooksHere(db: Db, t: string, k: APIKey, now: int, at: int)
    requires Fresh(db, t, k.id) && Cut(BuildKey([t, k.id])).found
    requires Render(ApiKeyPath(t, k.id)) != Render(ApiKeyIds(t))
    requires LookupKey(t, k.id) == Render(ApiKeyPath(t, k.id)) || t != ""
    ensures Found(db, t, k, now, at) <==>
            && LookupKey(t, k.id) == Render(ApiKeyPath(t, k.id))
            && Render(HashPath(k.keyHash)) != Render(ApiKeyPath(t, k.id))
  {
    hide Render, BuildKey, Cut;
  }

  /** For instance, the keys of tenant a:b are looked up under tenant a, and not found. */
  lemma ColonTenantLosesKeys(db: Db, k: APIKey, now: int, at: int)
    requires Fresh(db, "a:b", k.id)
    ensures !Found(db, "a:b", k, now, at)
  {
    assert "a:b" == "a" + (":" + "b");
    CutUndoesJoin("a", "b");
    CutAtNothing("b", ':');
    assert !OnlyApiKeys("b");
    hide Found, Render;
    FoundExactlyWhen(db, "a:b", k, now, at);
  }

  /** Every key of a tenant is found if and only if it looks where it stores, outside of the hashes. */
  lemma EveryKeyFoundExactlyWhen(t: string)
    ensures (forall k: APIKey, now: int, at: int :: Found(map[], t, k, now, at)) <==>
            LooksAtItself(t) && !InHashSpace(t)
  {
    hide Found, LooksAtItself, InHashSpace, Render;
    if InHashSpace(t) {
      var h := HashOf(ApiKeyPath(t, ""));
      var k := APIKey("", h, "", "", "", "", 0, 0);
      FoundExactlyWhen(map[], t, k, 0, 0);
      assert !Found(map[], t, k, 0, 0);
    } else {
      forall k: APIKey, now: int, at: int
        ensures Found(map[], t, k, now, at) <==> LooksAtItself(t)
      {
        FoundExactlyWhen(map[], t, k, now, at);
        if Render(HashPath(k.keyHash)) == Render(ApiKeyPath(t, k.id)) {
          HashKeysApart(ApiKeyPath(t, k.id), k.keyHash);
        }
      }
      var k := APIKey("", "", "", "", "", "", 0, 0);
      assert Found(map[], t, k, 0, 0) <==> LooksAtItself(t);
    }
  }
}
