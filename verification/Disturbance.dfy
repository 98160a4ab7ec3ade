/** A run that shows each disturbance, and so the exact condition for isolation. */
module Disturbance {
  import opened Options
  import opened Records
  import opened Keys
  import opened KeyConflicts
  import opened F = FlatStore
  import opened T = TenantStore
  import opened Isolation
  import opened Interference

  // ---- One record written, one record read ----

  predicate IsRecord(p: Path) {
    p.FlagPath? || p.ExperimentPath? || p.AssignmentPath? || p.ApiKeyPath?
  }

  /** A call that writes the record at p; an API key is given this hash. */
  function Writes(p: Path, hash: string): Op
    requires IsRecord(p)
  {
    match p
    case FlagPath(t, k) => CreateFlag(t, FlagDefinition(k, "", "", true, "", [], EvalResult(true, ""), "", "", 0, 0))
    case ExperimentPath(t, k) => CreateExperiment(t, Experiment(k, "", "", false, [], [], 0, 0))
    case AssignmentPath(t, s, f) => SaveAssignment(t, Assignment(s, f, true, "", 1, 0))
    case ApiKeyPath(t, id) => CreateAPIKey(t, APIKey(id, hash, "", "", "", "", 0, 0))
  }

  /** A call whose answer depends on whether there is a record at p. */
  function Reads(p: Path): Op
    requires IsRecord(p)
  {
    match p
    case FlagPath(t, k) => GetFlag(t, k)
    case ExperimentPath(t, k) => GetExperiment(t, k)
    case AssignmentPath(t, s, f) => GetAssignment(t, s, f)
    case ApiKeyPath(t, id) => RevokeAPIKey(t, id)
  }

  /** A document that decodes as a record of any kind and does not expire. */
  predicate Readable(entry: Option<Entry>) {
    match entry
    case Some(Data(doc, None)) => !doc.RefDoc? && (doc.AssignmentDoc? ==> doc.assignment.expiresAt <= 0)
    case _ => false
  }

  lemma WrittenIsReadable(p: Path, hash: string)
    requires IsRecord(p) && !InHashSpace(p.tenant)
    ensures Readable(Lookup(Step(map[], Writes(p, hash), 0).0, Render(p)))
  {
    hide Render, BuildKey, InHashSpace;
    var t := p.tenant;
    if Render(p) == Render(FlagKeys(t)) {
      FamiliesApart(p, FlagKeys(t));
    }
    if Render(p) == Render(ExperimentKeys(t)) {
      FamiliesApart(p, ExperimentKeys(t));
    }
    if Render(p) == Render(ApiKeyIds(t)) {
      FamiliesApart(p, ApiKeyIds(t));
    }
    if Render(p) == Render(HashPath(hash)) {
      HashKeysApart(p, hash);
    }
  }

  /** Reading tells a store with a readable document at p from one without anything there. */
  lemma ReadingTells(db: Db, d: Db, p: Path)
    requires IsRecord(p) && Readable(Lookup(db, Render(p))) && Lookup(d, Render(p)) == None
    ensures Step(db, Reads(p), 0).1 != Step(d, Reads(p), 0).1
  {
    hide Render;
  }

  // ---- Runs of one call of u and then calls of t ----

  ghost predicate AllOf(calls: seq<Call>, t: string, issuer: Issuer) {
    forall call <- calls :: Owner(call.op, issuer) == t && IssuesOwnHash(call.op, issuer)
  }

  lemma {:induction false} OwnCallsOnly(calls: seq<Call>, answers: seq<Response>, t: string, issuer: Issuer)
    requires AllOf(calls, t, issuer) && |answers| == |calls|
    ensures CallsOf(calls, t, issuer) == calls && AnswersTo(calls, answers, t, issuer) == answers
    decreases |calls|
  {
    if calls != [] {
      assert AllOf(calls[1..], t, issuer);
      OwnCallsOnly(calls[1..], answers[1..], t, issuer);
      assert Owner(calls[0].op, issuer) == t;
      assert calls == [calls[0]] + calls[1..] && answers == [answers[0]] + answers[1..];
    }
  }

  /** A run of calls of t and u in which t is told something else than it would be told alone. */
  ghost predicate Disturbed(calls: seq<Call>, u: string, t: string, issuer: Issuer) {
    RunOf(calls, iset{t, u}, issuer) && !Undisturbed(calls, t, issuer)
  }

  lemma OneForeignCall(op: Op, own: seq<Call>, u: string, t: string, issuer: Issuer)
    requires u != t && Owner(op, issuer) == u && IssuesOwnHash(op, issuer) && AllOf(own, t, issuer)
    requires Responses(Step(map[], op, 0).0, own) != Responses(map[], own)
    ensures Disturbed([Call(op, 0)] + own, u, t, issuer)
  {
    hide Step, Responses, AnswersTo, CallsOf;
    var calls := [Call(op, 0)] + own;
    assert calls[1..] == own;
    forall call <- calls
      ensures IssuesOwnHash(call.op, issuer) && Owner(call.op, issuer) in iset{t, u}
    {
      assert call == calls[0] || call in own;
    }
    FirstCall(calls, map[], map[], t, issuer);
    var answers := Responses(Step(map[], op, 0).0, own);
    OwnCallsOnly(own, answers, t, issuer);
    assert [] + own == own && [] + answers == answers;
  }

  lemma OneCallEach(op: Op, own: Op, u: string, t: string, issuer: Issuer) returns (calls: seq<Call>)
    requires u != t && Owner(op, issuer) == u && IssuesOwnHash(op, issuer)
    requires Owner(own, issuer) == t && IssuesOwnHash(own, issuer)
    requires Step(Step(map[], op, 0).0, own, 0).1 != Step(map[], own, 0).1
    ensures Disturbed(calls, u, t, issuer)
  {
    hide Step;
    var next := Step(map[], op, 0).0;
    assert Responses(next, [Call(own, 0)])[0] == Step(next, own, 0).1;
    assert Responses(map[], [Call(own, 0)])[0] == Step(map[], own, 0).1;
    OneForeignCall(op, [Call(own, 0)], u, t, issuer);
    calls := [Call(op, 0)] + [Call(own, 0)];
  }

  // ---- One run for every condition ----

  lemma CollisionDisturbs(p: Path, q: Path, t: string, u: string) returns (calls: seq<Call>, issuer: Issuer)
    requires u != t && OfTenant(q, u) && OfTenant(p, t) && IsRecord(p) && IsRecord(q)
    requires Render(p) == Render(q) && !InHashSpace(u)
    ensures Disturbed(calls, u, t, issuer)
  {
    hide Render, Step, InHashSpace;
    issuer := _ => u;
    WrittenIsReadable(q, "");
    ReadingTells(Step(map[], Writes(q, ""), 0).0, map[], p);
    calls := OneCallEach(Writes(q, ""), Reads(p), u, t, issuer);
  }

  lemma ExtensionDisturbs(t: string, u: string) returns (calls: seq<Call>, issuer: Issuer)
    requires u != t && (Extends(t, u) || Extends(u, t)) && !InHashSpace(u)
    ensures Disturbed(calls, u, t, issuer)
  {
    hide Render, Extends, InHashSpace;
    if Extends(t, u) {
      var p, q := ExtensionCollides(t, u);
      calls, issuer := CollisionDisturbs(p, q, t, u);
    } else {
      var q, p := ExtensionCollides(u, t);
      calls, issuer := CollisionDisturbs(p, q, t, u);
    }
  }

  lemma HashOf(p: Path) returns (h: string)
    requires !p.HashPath? && InHashSpace(p.tenant)
    ensures Render(HashPath(h)) == Render(p)
  {
    KeyOf(p);
    CutOfAppended(p.tenant, BuildKey(Parts(p)[1..]));
    JoinUndoesCut(Render(p));
    h := Cut(Render(p)).after;
    assert Cut(Render(p)).found && Cut(Render(p)).before == "apikey_by_hash";
    HashKeyIs(h);
  }

  lemma HashKeyIs(h: string)
    ensures Render(HashPath(h)) == "apikey_by_hash" + (":" + h)
  {
    CutOfRender(HashPath(h));
    JoinUndoesCut(Render(HashPath(h)));
    assert Parts(HashPath(h))[1..] == [h];
  }

  /** A tenant among the hashes finds references where its records should be. */
  lemma HashSpaceIsDisturbed(t: string, u: string) returns (calls: seq<Call>, issuer: Issuer)
    requires u != t && InHashSpace(t)
    ensures Disturbed(calls, u, t, issuer)
  {
    hide InHashSpace, Render, BuildKey;
    var h := HashOf(FlagPath(t, "k"));
    var op := Writes(ApiKeyPath(u, ""), h);
    issuer := _ => u;
    calls := OneCallEach(op, GetFlag(t, "k"), u, t, issuer);
  }

  /** A tenant among the hashes puts an index where a reference should be. */
  lemma HashSpaceDisturbs(t: string, u: string) returns (calls: seq<Call>, issuer: Issuer)
    requires u != t && InHashSpace(u)
    ensures Disturbed(calls, u, t, issuer)
  {
    hide InHashSpace, Render;
    var h := HashOf(FlagKeys(u));
    if Render(FlagPath(u, "k")) == Render(FlagKeys(u)) {
      FamiliesApart(FlagPath(u, "k"), FlagKeys(u));
    }
    issuer := _ => t;
    calls := OneCallEach(Writes(FlagPath(u, "k"), ""), GetAPIKeyByHash(h), u, t, issuer);
  }

  /** A record of u under the root where the keys of t are looked up. */
  lemma RecordUnderRoot(t: string, u: string) returns (q: Path, id: string)
    requires ReachesLookups(u, t)
    ensures OfTenant(q, u) && IsRecord(q) && Render(q) == LookupKey(t, id)
  {
    var r := LookupRoot(t);
    hide LookupRoot, LookupKey;
    FlagKeyIs(u, "k");
    var tail := "flags" + (":" + "k");
    if u == r {
      q, id := FlagPath(u, "k"), tail;
    } else if Under(u, r) {
      q, id := FlagPath(u, "k"), u[|r| + 1..] + (":" + tail);
      assert u == r + (":" + u[|r| + 1..]);
      Regroup2(r, u[|r| + 1..], tail);
    } else {
      id := "i:j";
      q := ExtendedRecord(u, r, id);
    }
    LookupKeyIs(t, id);
  }

  lemma SplitExtension(u: string, r: string)
    requires Extends(u, r)
    ensures var c := Cut(r[|u| + 1..]);
            IsRecordFamily(c.before) && r == u + (":" + if c.found then c.before + (":" + c.after) else c.before)
  {
    JoinUndoesCut(r[|u| + 1..]);
    hide Cut, IsRecordFamily;
    Rejoin(u, r);
  }

  /** Whoever is extended by r has a record at r:id, if id has a colon. */
  lemma ExtendedRecord(u: string, r: string, id: string) returns (q: Path)
    requires Extends(u, r) && Cut(id).found
    ensures OfTenant(q, u) && IsRecord(q) && Render(q) == r + (":" + id)
  {
    SplitExtension(u, r);
    var c := Cut(r[|u| + 1..]);
    hide Extends, IsRecordFamily, Render;
    if c.found {
      CutOfAppended(c.after, id);
      hide Cut;
      q := PathOf(u, c.before, c.after + (":" + id));
      Regroup(u, c.before, c.after, id);
    } else {
      hide Cut;
      q := PathOf(u, c.before, id);
      Regroup2(u, c.before, id);
    }
  }

  /** What a lookup by hash answers right after the key was created, given what stands at its lookup key. */
  lemma LookupAfterCreation(db: Db, t: string, k: APIKey)
    requires LookupKey(t, k.id) != Render(ApiKeyPath(t, k.id)) && LookupKey(t, k.id) != Render(ApiKeyIds(t))
    requires LookupKey(t, k.id) != Render(HashPath(k.keyHash))
    ensures var answer := Step(Step(db, CreateAPIKey(t, k), 0).0, GetAPIKeyByHash(k.keyHash), 0).1;
            var entry := Lookup(db, LookupKey(t, k.id));
            && (entry == None ==> answer == ApiKeyFound(None))
            && (Readable(entry) ==> answer != ApiKeyFound(None))
  {
    LookupKeyIs(t, k.id);
    hide Render, BuildKey, Cut, LookupRoot;
  }

  lemma LookupsAreDisturbed(t: string, u: string) returns (calls: seq<Call>, issuer: Issuer)
    requires u != t && ReachesLookups(u, t)
    requires !Extends(t, u) && !Extends(u, t) && !InHashSpace(u) && !InHashSpace(t)
    ensures Disturbed(calls, u, t, issuer)
  {
    hide Render, Step, InHashSpace, Extends, LookupKey, ReachesLookups;
    var q, id := RecordUnderRoot(t, u);
    var k := APIKey(id, "mine", "", "", "", "", 0, 0);
    issuer := h => if h == "mine" then t else u;
    var op := Writes(q, "theirs");
    var own := [Call(CreateAPIKey(t, k), 0), Call(GetAPIKeyByHash("mine"), 0)];
    WrittenIsReadable(q, "theirs");
    if Render(q) == Render(ApiKeyPath(t, id)) {
      TenantKeysApart(q, ApiKeyPath(t, id));
    }
    if Render(q) == Render(ApiKeyIds(t)) {
      TenantKeysApart(q, ApiKeyIds(t));
    }
    if Render(q) == Render(HashPath("mine")) {
      HashKeysApart(q, "mine");
    }
    LookupAfterCreation(map[], t, k);
    LookupAfterCreation(Step(map[], op, 0).0, t, k);
    SecondAnswer(map[], own);
    SecondAnswer(Step(map[], op, 0).0, own);
    OneForeignCall(op, own, u, t, issuer);
    calls := [Call(op, 0)] + own;
  }

  lemma SecondAnswer(db: Db, calls: seq<Call>)
    requires |calls| == 2
    ensures Responses(db, calls)[1] == Step(Step(db, calls[0].op, calls[0].now).0, calls[1].op, calls[1].now).1
  {
    hide Step;
    assert calls[1..][0] == calls[1];
  }

  // ---- The exact conditions ----

  /**
   * Between two tenants: some run of their calls in which u changes an answer given
   * to t exists if and only if one id extends the other by a record family, one of
   * them lies among the API key hashes, or u writes where keys of t are looked up.
   */
  lemma DisturbsExactlyWhen(u: string, t: string)
    requires u != t
    ensures (exists calls: seq<Call>, issuer: Issuer :: Disturbed(calls, u, t, issuer)) <==> Disturbs(u, t)
  {
    hide Extends, InHashSpace, ReachesLookups, Disturbed;
    if Disturbs(u, t) {
      var calls, issuer := SomeDisturbance(u, t);
      assert Disturbed(calls, u, t, issuer);
    } else {
      forall calls: seq<Call>, issuer: Issuer
        ensures !Disturbed(calls, u, t, issuer)
      {
        Calm(calls, u, t, issuer);
      }
    }
  }

  lemma SomeDisturbance(u: string, t: string) returns (calls: seq<Call>, issuer: Issuer)
    requires u != t && Disturbs(u, t)
    ensures Disturbed(calls, u, t, issuer)
  {
    hide Extends, InHashSpace, ReachesLookups, Disturbed;
    if InHashSpace(t) {
      calls, issuer := HashSpaceIsDisturbed(t, u);
    } else if InHashSpace(u) {
      calls, issuer := HashSpaceDisturbs(t, u);
    } else if Extends(t, u) || Extends(u, t) {
      calls, issuer := ExtensionDisturbs(t, u);
    } else {
      calls, issuer := LookupsAreDisturbed(t, u);
    }
  }

  lemma Calm(calls: seq<Call>, u: string, t: string, issuer: Issuer)
    requires u != t && !Disturbs(u, t)
    ensures !Disturbed(calls, u, t, issuer)
  {
    if RunOf(calls, iset{t, u}, issuer) {
      NoneDisturbs(calls, t, iset{t, u}, u, issuer);
    }
  }

  lemma NoneDisturbs(calls: seq<Call>, t: string, tenants: iset<string>, u: string, issuer: Issuer)
    requires u in tenants && u != t && forall v <- tenants :: v != t ==> !Disturbs(v, t)
    requires RunOf(calls, tenants, issuer)
    ensures Undisturbed(calls, t, issuer)
  {
    hide RunOf, Responses, CallsOf, AnswersTo;
    assert !Disturbs(u, t);
    assert HashesRefer(map[], t, issuer);
    AlikeRuns(map[], map[], calls, t, tenants, issuer);
  }

  /**
   * For a whole deployment: every tenant always gets the answers it would get
   * alone, in every run of calls of all of them, if and only if no tenant of the
   * set disturbs another.
   */
  lemma IsolatedExactlyWhen(tenants: iset<string>)
    ensures (forall t: string, calls: seq<Call>, issuer: Issuer ::
               t in tenants && RunOf(calls, tenants, issuer) ==> Undisturbed(calls, t, issuer)) <==>
            (forall t: string, u: string :: t in tenants && u in tenants && t != u ==> !Disturbs(u, t))
  {
    hide Disturbs, Undisturbed, HashesKept;
    if t: string, u: string :| t in tenants && u in tenants && t != u && Disturbs(u, t) {
      var calls, issuer := SomeDisturbance(u, t);
      assert RunOf(calls, tenants, issuer) && !Undisturbed(calls, t, issuer);
    } else {
      forall t: string, calls: seq<Call>, issuer: Issuer | t in tenants && RunOf(calls, tenants, issuer)
        ensures Undisturbed(calls, t, issuer)
      {
        if u: string :| u in tenants && u != t {
          NoneDisturbs(calls, t, tenants, u, issuer);
        } else {
          AloneIsUndisturbed(calls, t, tenants, issuer);
        }
      }
    }
  }

  lemma AloneIsUndisturbed(calls: seq<Call>, t: string, tenants: iset<string>, issuer: Issuer)
    requires RunOf(calls, tenants, issuer) && forall u <- tenants :: u == t
    ensures Undisturbed(calls, t, issuer)
  {
    hide Responses;
    OwnCallsOnly(calls, Responses(map[], calls), t, issuer);
  }
}
