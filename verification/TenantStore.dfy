/**
 * The store as its users think of it: maps indexed by tenant, with no flat keys,
 * no index sets and no expiry in Redis. The flat store is proved to answer alike.
 */
module TenantStore {
  import opened Options
  import opened Records
  import opened F = FlatStore

  datatype Clean = Clean(
    flags: map<(string, string), FlagDefinition>,
    experiments: map<(string, string), Experiment>,
    assignments: map<(string, string, string), Assignment>,
    apiKeys: map<(string, string), APIKey>,
    hashes: map<string, (string, string)>)

  const Empty := Clean(map[], map[], map[], map[], map[])

  function KeysOf<V>(m: map<(string, string), V>, tid: string): (s: set<string>)
    ensures forall k :: k in s <==> (tid, k) in m
  {
    set p | p in m && p.0 == tid :: p.1
  }

  function Lookup<K, V>(m: map<K, V>, k: K): Option<V> {
    if k in m then Some(m[k]) else None
  }

  ghost function Values<V>(m: map<(string, string), V>, tid: string, keys: seq<string>): seq<V> {
    if keys == [] then []
    else (if (tid, keys[0]) in m then [m[(tid, keys[0])]] else []) + Values(m, tid, keys[1..])
  }

  function GetByHash(c: Clean, hash: string): Option<Owned> {
    if hash !in c.hashes then None
    else
      var (t, id) := c.hashes[hash];
      if (t, id) in c.apiKeys then Some(Owned(c.apiKeys[(t, id)], t)) else None
  }

  ghost function ReadOnly(c: Clean, op: Op, now: int): Response {
    match op
    case GetFlag(t, k) => FlagIs(Lookup(c.flags, (t, k)))
    case ListFlags(t, pr) =>
      (match PageOfKeys(KeysOf(c.flags, t), pr)
       case None => Failed(SliceBounds)
       case Some(page) => FlagPage(Values(c.flags, t, page.keys), page.info))
    case GetAssignment(t, s, f) =>
      AssignmentIs(
        if (t, s, f) in c.assignments && !PastExpiry(now, c.assignments[(t, s, f)])
        then Some(c.assignments[(t, s, f)]) else None)
    case GetExperiment(t, k) => ExperimentIs(Lookup(c.experiments, (t, k)))
    case ListExperiments(t, pr) =>
      (match PageOfKeys(KeysOf(c.experiments, t), pr)
       case None => Failed(SliceBounds)
       case Some(page) => ExperimentPage(Values(c.experiments, t, page.keys), page.info))
    case GetAPIKeyByHash(h) => ApiKeyFound(GetByHash(c, h))
    case ListAPIKeys(t, pr) =>
      (match PageOfKeys(KeysOf(c.apiKeys, t), pr)
       case None => Failed(SliceBounds)
       case Some(page) => ApiKeyPage(Values(c.apiKeys, t, page.keys), page.info))
    case _ => Done
  }

  ghost function CleanStep(c: Clean, op: Op, now: int): (Clean, Response) {
    match op
    case CreateFlag(t, flag) =>
      var f := StampedFlag(flag, Unix(now), Unix(now));
      (c.(flags := c.flags[(t, f.key) := f]), FlagIs(Some(f)))
    case UpdateFlag(t, flag) =>
      if (t, flag.key) !in c.flags then (c, Failed(NotFound))
      else
        var f := StampedFlag(flag, c.flags[(t, flag.key)].createdAt, Unix(now));
        (c.(flags := c.flags[(t, f.key) := f]), FlagIs(Some(f)))
    case DeleteFlag(t, k) => (c.(flags := c.flags - {(t, k)}), Done)
    case SaveAssignment(t, a) =>
      (c.(assignments := c.assignments[(t, a.subjectId, a.flagKey) := StoredAssignment(now, a)]), Done)
    case CreateExperiment(t, experiment) =>
      var e := StampedExperiment(experiment, Unix(now), Unix(now));
      (c.(experiments := c.experiments[(t, e.key) := e]), ExperimentIs(Some(e)))
    case UpdateExperiment(t, experiment) =>
      if (t, experiment.key) !in c.experiments then (c, Failed(NotFound))
      else
        var e := StampedExperiment(experiment, c.experiments[(t, experiment.key)].createdAt, Unix(now));
        (c.(experiments := c.experiments[(t, e.key) := e]), ExperimentIs(Some(e)))
    case CreateAPIKey(t, apiKey) =>
      var k := NewApiKey(now, apiKey);
      (c.(apiKeys := c.apiKeys[(t, k.id) := k], hashes := c.hashes[k.keyHash := (t, k.id)]), ApiKeyIs(k))
    case RevokeAPIKey(t, id) =>
      if (t, id) !in c.apiKeys then (c, Failed(NotFound))
      else (c.(apiKeys := c.apiKeys[(t, id) := c.apiKeys[(t, id)].(revokedAt := Unix(now))]), Done)
    case _ => (c, ReadOnly(c, op, now))
  }

  ghost function CleanRun(c: Clean, calls: seq<Call>): Clean
    decreases |calls|
  {
    if calls == [] then c
    else CleanRun(CleanStep(c, calls[0].op, calls[0].now).0, calls[1..])
  }

  ghost function CleanResponses(c: Clean, calls: seq<Call>): (rs: seq<Response>)
    ensures |rs| == |calls|
    decreases |calls|
  {
    if calls == [] then []
    else
      var (next, r) := CleanStep(c, calls[0].op, calls[0].now);
      [r] + CleanResponses(next, calls[1..])
  }
}
