/** No operation of one tenant changes any answer given to another. */
module Isolation {
  import opened Options
  import opened Records
  import opened Keys
  import opened Pagination
  import opened F = FlatStore
  import opened T = TenantStore
  import opened Refinement

  /** Which tenant issued each API key hash; hashes of random keys never cross tenants. */
  type Issuer = string -> string

  predicate Belongs(op: Op, t: string, issuer: Issuer) {
    if op.GetAPIKeyByHash? then issuer(op.keyHash) == t else op.tenant == t
  }

  predicate IssuesOwnHash(op: Op, issuer: Issuer) {
    op.CreateAPIKey? ==> issuer(op.apiKey.keyHash) == op.tenant
  }

  ghost predicate HashesKept(calls: seq<Call>, issuer: Issuer) {
    forall call <- calls :: IssuesOwnHash(call.op, issuer)
  }

  /** The calls of tenant t alone. */
  function CallsOf(calls: seq<Call>, t: string, issuer: Issuer): seq<Call> {
    if calls == [] then []
    else (if Belongs(calls[0].op, t, issuer) then [calls[0]] else []) + CallsOf(calls[1..], t, issuer)
  }

  /** The answers that tenant t gets, out of those given to everybody. */
  function AnswersTo(calls: seq<Call>, answers: seq<Response>, t: string, issuer: Issuer): seq<Response>
    requires |answers| == |calls|
  {
    if calls == [] then []
    else (if Belongs(calls[0].op, t, issuer) then [answers[0]] else []) + AnswersTo(calls[1..], answers[1..], t, issuer)
  }

  // ---- Two stores that look alike to tenant t ----

  ghost predicate SameRows<V>(m: map<(string, string), V>, n: map<(string, string), V>, t: string) {
    forall k: string :: Lookup(m, (t, k)) == Lookup(n, (t, k))
  }

  type Assignments = map<(string, string, string), Assignment>
  type Hashes = map<string, (string, string)>

  ghost predicate SameAssignments(m: Assignments, n: Assignments, t: string) {
    forall s: string, f: string :: Lookup(m, (t, s, f)) == Lookup(n, (t, s, f))
  }

  ghost predicate SameHashes(m: Hashes, n: Hashes, t: string, issuer: Issuer) {
    forall h: string :: issuer(h) == t ==> Lookup(m, h) == Lookup(n, h)
  }

  ghost predicate SameFor(c: Clean, d: Clean, t: string, issuer: Issuer) {
    && SameRows(c.flags, d.flags, t)
    && SameRows(c.experiments, d.experiments, t)
    && SameRows(c.apiKeys, d.apiKeys, t)
    && SameAssignments(c.assignments, d.assignments, t)
    && SameHashes(c.hashes, d.hashes, t, issuer)
  }

  ghost predicate HashesIssued(c: Clean, issuer: Issuer) {
    forall h :: h in c.hashes ==> c.hashes[h].0 == issuer(h)
  }

  lemma {:induction false} SameValues<V>(
    m: map<(string, string), V>, n: map<(string, string), V>, t: string, keys: seq<string>)
    requires SameRows(m, n, t)
    ensures Values(m, t, keys) == Values(n, t, keys)
    decreases |keys|
  {
    if keys != [] {
      assert Lookup(m, (t, keys[0])) == Lookup(n, (t, keys[0]));
      SameValues(m, n, t, keys[1..]);
    }
  }

  lemma SameListing<V>(m: map<(string, string), V>, n: map<(string, string), V>, t: string, pr: Option<PageRequest>)
    requires SameRows(m, n, t)
    ensures KeysOf(m, t) == KeysOf(n, t)
    ensures var page := PageOfKeys(KeysOf(m, t), pr);
            page.Some? ==> Values(m, t, page.value.keys) == Values(n, t, page.value.keys)
  {
    hide PageOfKeys, Values;
    assert forall k :: Lookup(m, (t, k)) == Lookup(n, (t, k));
    var page := PageOfKeys(KeysOf(m, t), pr);
    if page.Some? {
      SameValues(m, n, t, page.value.keys);
    }
  }

  lemma ForeignHashStep(c: Clean, op: Op, now: int, t: string, issuer: Issuer)
    requires !Belongs(op, t, issuer) && IssuesOwnHash(op, issuer)
    ensures SameHashes(c.hashes, CleanStep(c, op, now).0.hashes, t, issuer)
  {
    hide ReadOnly;
  }

  /** A call of somebody else changes nothing that t can see. */
  lemma ForeignStep(c: Clean, op: Op, now: int, t: string, issuer: Issuer)
    requires !Belongs(op, t, issuer) && IssuesOwnHash(op, issuer)
    ensures SameFor(c, CleanStep(c, op, now).0, t, issuer)
  {
    hide ReadOnly, SameHashes;
    ForeignHashStep(c, op, now, t, issuer);
  }

  lemma IssuedStep(c: Clean, op: Op, now: int, issuer: Issuer)
    requires HashesIssued(c, issuer) && IssuesOwnHash(op, issuer)
    ensures HashesIssued(CleanStep(c, op, now).0, issuer)
  {
    hide ReadOnly;
  }

  lemma RowAt<V>(m: map<(string, string), V>, n: map<(string, string), V>, t: string, k: string)
    requires SameRows(m, n, t)
    ensures Lookup(m, (t, k)) == Lookup(n, (t, k))
  {
  }

  lemma RowsPut<V>(m: map<(string, string), V>, n: map<(string, string), V>, t: string, k: string, v: V)
    requires SameRows(m, n, t)
    ensures SameRows(m[(t, k) := v], n[(t, k) := v], t)
  {
    forall j: string
      ensures Lookup(m[(t, k) := v], (t, j)) == Lookup(n[(t, k) := v], (t, j))
    {
      RowAt(m, n, t, j);
    }
  }

  lemma RowsRemoved<V>(m: map<(string, string), V>, n: map<(string, string), V>, t: string, k: string)
    requires SameRows(m, n, t)
    ensures SameRows(m - {(t, k)}, n - {(t, k)}, t)
  {
    forall j: string
      ensures Lookup(m - {(t, k)}, (t, j)) == Lookup(n - {(t, k)}, (t, j))
    {
      RowAt(m, n, t, j);
    }
  }

  lemma SameReads(c: Clean, d: Clean, op: Op, now: int, t: string, issuer: Issuer)
    requires SameFor(c, d, t, issuer) && HashesIssued(c, issuer) && Belongs(op, t, issuer)
    ensures ReadOnly(c, op, now) == ReadOnly(d, op, now)
  {
    hide SameRows, PageOfKeys, KeysOf, Values;
    match op
    case GetFlag(_, k) => RowAt(c.flags, d.flags, t, k);
    case ListFlags(_, pr) => SameListing(c.flags, d.flags, t, pr);
    case GetAssignment(_, s, f) => assert Lookup(c.assignments, (t, s, f)) == Lookup(d.assignments, (t, s, f));
    case GetExperiment(_, k) => RowAt(c.experiments, d.experiments, t, k);
    case ListExperiments(_, pr) => SameListing(c.experiments, d.experiments, t, pr);
    case GetAPIKeyByHash(h) =>
      assert Lookup(c.hashes, h) == Lookup(d.hashes, h);
      if h in c.hashes {
        RowAt(c.apiKeys, d.apiKeys, t, c.hashes[h].1);
      }
    case ListAPIKeys(_, pr) => SameListing(c.apiKeys, d.apiKeys, t, pr);
    case _ =>
  }

  lemma AssignmentsPut(m: Assignments, n: Assignments, t: string, s: string, f: string, a: Assignment)
    requires SameAssignments(m, n, t)
    ensures SameAssignments(m[(t, s, f) := a], n[(t, s, f) := a], t)
  {
    forall x: string, y: string
      ensures Lookup(m[(t, s, f) := a], (t, x, y)) == Lookup(n[(t, s, f) := a], (t, x, y))
    {
      assert Lookup(m, (t, x, y)) == Lookup(n, (t, x, y));
    }
  }

  lemma HashesPut(m: Hashes, n: Hashes, t: string, issuer: Issuer, h: string, ref: (string, string))
    requires SameHashes(m, n, t, issuer)
    ensures SameHashes(m[h := ref], n[h := ref], t, issuer)
  {
    forall g: string | issuer(g) == t
      ensures Lookup(m[h := ref], g) == Lookup(n[h := ref], g)
    {
      assert Lookup(m, g) == Lookup(n, g);
    }
  }

  /** A call of t is answered alike in both stores, which stay alike for t. */
  lemma OwnStep(c: Clean, d: Clean, op: Op, now: int, t: string, issuer: Issuer)
    requires SameFor(c, d, t, issuer) && HashesIssued(c, issuer) && Belongs(op, t, issuer)
    ensures CleanStep(c, op, now).1 == CleanStep(d, op, now).1
    ensures SameFor(CleanStep(c, op, now).0, CleanStep(d, op, now).0, t, issuer)
  {
    SameReads(c, d, op, now, t, issuer);
    hide ReadOnly, SameRows, SameAssignments, SameHashes, HashesIssued;
    match op
    case CreateFlag(_, f) => RowsPut(c.flags, d.flags, t, f.key, StampedFlag(f, Unix(now), Unix(now)));
    case UpdateFlag(_, f) =>
      RowAt(c.flags, d.flags, t, f.key);
      if (t, f.key) in c.flags {
        RowsPut(c.flags, d.flags, t, f.key, StampedFlag(f, c.flags[(t, f.key)].createdAt, Unix(now)));
      }
    case DeleteFlag(_, k) => RowsRemoved(c.flags, d.flags, t, k);
    case CreateExperiment(_, e) =>
      RowsPut(c.experiments, d.experiments, t, e.key, StampedExperiment(e, Unix(now), Unix(now)));
    case UpdateExperiment(_, e) =>
      RowAt(c.experiments, d.experiments, t, e.key);
      if (t, e.key) in c.experiments {
        RowsPut(c.experiments, d.experiments, t, e.key,
                StampedExperiment(e, c.experiments[(t, e.key)].createdAt, Unix(now)));
      }
    case CreateAPIKey(_, k) =>
      RowsPut(c.apiKeys, d.apiKeys, t, k.id, NewApiKey(now, k));
      HashesPut(c.hashes, d.hashes, t, issuer, k.keyHash, (t, k.id));
    case RevokeAPIKey(_, id) =>
      RowAt(c.apiKeys, d.apiKeys, t, id);
      if (t, id) in c.apiKeys {
        RowsPut(c.apiKeys, d.apiKeys, t, id, c.apiKeys[(t, id)].(revokedAt := Unix(now)));
      }
    case SaveAssignment(_, a) =>
      AssignmentsPut(c.assignments, d.assignments, t, a.subjectId, a.flagKey, StoredAssignment(now, a));
    case _ =>
  }

  lemma SameTransitive(c: Clean, d: Clean, e: Clean, t: string, issuer: Issuer)
    requires SameFor(c, d, t, issuer) && SameFor(d, e, t, issuer)
    ensures SameFor(c, e, t, issuer)
  {
  }

  lemma SameSymmetric(c: Clean, d: Clean, t: string, issuer: Issuer)
    requires SameFor(c, d, t, issuer)
    ensures SameFor(d, c, t, issuer)
  {
  }

  lemma {:induction false} CleanIsolation(c: Clean, d: Clean, calls: seq<Call>, t: string, issuer: Issuer)
    requires SameFor(c, d, t, issuer) && HashesIssued(c, issuer) && HashesKept(calls, issuer)
    ensures AnswersTo(calls, CleanResponses(c, calls), t, issuer) == CleanResponses(d, CallsOf(calls, t, issuer))
    decreases |calls|
  {
    if calls != [] {
      var call := calls[0];
      hide CleanStep, SameFor, HashesIssued, Belongs;
      assert IssuesOwnHash(call.op, issuer);
      assert HashesKept(calls[1..], issuer);
      IssuedStep(c, call.op, call.now, issuer);
      var c' := CleanStep(c, call.op, call.now).0;
      var answers := CleanResponses(c, calls);
      assert answers[1..] == CleanResponses(c', calls[1..]);
      if Belongs(call.op, t, issuer) {
        OwnStep(c, d, call.op, call.now, t, issuer);
        var own := CallsOf(calls, t, issuer);
        assert own[0] == call && own[1..] == CallsOf(calls[1..], t, issuer);
        CleanIsolation(c', CleanStep(d, call.op, call.now).0, calls[1..], t, issuer);
      } else {
        ForeignStep(c, call.op, call.now, t, issuer);
        SameSymmetric(c, c', t, issuer);
        SameTransitive(c', c, d, t, issuer);
        assert CallsOf(calls, t, issuer) == CallsOf(calls[1..], t, issuer);
        CleanIsolation(c', d, calls[1..], t, issuer);
      }
    }
  }

  lemma {:induction false} CallsOfPlain(calls: seq<Call>, t: string, issuer: Issuer)
    requires PlainCalls(calls)
    ensures PlainCalls(CallsOf(calls, t, issuer))
    decreases |calls|
  {
    if calls != [] {
      assert PlainCalls(calls[1..]);
      CallsOfPlain(calls[1..], t, issuer);
    }
  }

  /**
   * Tenant isolation on the flat store: in any run of calls of any tenants, a
   * tenant gets exactly the answers it would get if nobody else used the store.
   */
  lemma TenantsAreIsolated(calls: seq<Call>, t: string, issuer: Issuer)
    requires PlainCalls(calls) && HashesKept(calls, issuer)
    ensures AnswersTo(calls, Responses(map[], calls), t, issuer) == Responses(map[], CallsOf(calls, t, issuer))
  {
    hide PlainCalls, HashesKept;
    EmptyRepresentsEmpty();
    RunRefines(map[], Empty, calls);
    CallsOfPlain(calls, t, issuer);
    RunRefines(map[], Empty, CallsOf(calls, t, issuer));
    assert SameFor(Empty, Empty, t, issuer);
    CleanIsolation(Empty, Empty, calls, t, issuer);
  }

  /** Without the condition on tenant ids it fails: a tenant reads what another one wrote. */
  lemma ColonTenantLeaks(f: FlagDefinition, now: int)
    requires f.key == "flags:x"
    ensures var calls := [Call(CreateFlag("a", f), now), Call(GetFlag("a:flags", "x"), now)];
            Responses(map[], calls)[1] == FlagIs(Some(StampedFlag(f, Unix(now), Unix(now))))
    ensures Responses(map[], [Call(GetFlag("a:flags", "x"), now)]) == [FlagIs(None)]
  {
    var p, q := FlagPath("a", "flags:x"), FlagPath("a:flags", "x");
    RenderThree("a", "flags", "flags:x");
    RenderThree("a:flags", "flags", "x");
    assert Render(p) == "a:flags:flags:x" == Render(q);
    var index := Render(FlagKeys("a"));
    assert |index| == 11 && |Render(p)| == 15;
    hide Render, BuildKey;
    var calls := [Call(CreateFlag("a", f), now), Call(GetFlag("a:flags", "x"), now)];
    var next := Step(map[], calls[0].op, now).0;
    assert Responses(map[], calls)[1] == Responses(next, calls[1..])[0];
    assert calls[1..][0] == calls[1];
  }
}
