/**
 * The Redis persistence store as functions of one flat key space: each RPC takes
 * the key space and the clock and gives the new key space and a response.
 */
module FlatStore {
  import opened Options
  import opened Records
  import opened Keys
  import opened Pagination
  import Sorting

  // ---- What Redis holds ----

  datatype ApiKeyData = ApiKeyData(tenantId: string, key: APIKey)

  /** A stored JSON document, by the record it encodes, or the plain text of a reference. */
  datatype Doc =
    | FlagDoc(flag: FlagDefinition)
    | ExperimentDoc(experiment: Experiment)
    | AssignmentDoc(assignment: Assignment)
    | ApiKeyDoc(apiKey: ApiKeyData)
    | RefDoc(ref: string)

  /** A string value with an optional expiry in milliseconds, or a set. */
  datatype Entry = Data(doc: Doc, deadline: Option<int>) | Members(members: set<string>)

  type Db = map<string, Entry>

  /** The entry at key, unless its time is over. */
  function Live(db: Db, now: int, key: string): Option<Entry> {
    if key !in db then None
    else if db[key].Data? && db[key].deadline.Some? && now > db[key].deadline.value then None
    else Some(db[key])
  }

  // ---- Redis commands ----

  datatype StoreError = NotFound | WrongType | Undecodable | SliceBounds

  /** GET followed by decoding. */
  datatype Fetched<+T> = Absent | Present(value: T) | Broken(error: StoreError)

  function Get(db: Db, now: int, key: string): Fetched<Doc> {
    match Live(db, now, key)
    case None => Absent
    case Some(Data(doc, _)) => Present(doc)
    case Some(Members(_)) => Broken(WrongType)
  }

  function Set(db: Db, key: string, doc: Doc, deadline: Option<int>): Db {
    db[key := Data(doc, deadline)]
  }

  function Del(db: Db, key: string): Db {
    db - {key}
  }

  /** SADD; None is WRONGTYPE. */
  function SAdd(db: Db, now: int, key: string, member: string): Option<Db> {
    match Live(db, now, key)
    case None => Some(db[key := Members({member})])
    case Some(Members(s)) => Some(db[key := Members(s + {member})])
    case Some(Data(_, _)) => None
  }

  /** SREM; Redis drops a set with its last member. */
  function SRem(db: Db, now: int, key: string, member: string): Option<Db> {
    match Live(db, now, key)
    case None => Some(db)
    case Some(Members(s)) => Some(if s <= {member} then db - {key} else db[key := Members(s - {member})])
    case Some(Data(_, _)) => None
  }

  function SMembers(db: Db, now: int, key: string): Option<set<string>> {
    match Live(db, now, key)
    case None => Some({})
    case Some(Members(s)) => Some(s)
    case Some(Data(_, _)) => None
  }

  // ---- Decoding ----

  // json.Unmarshal takes the fields it knows and ignores the others, so a document of
  // another kind decodes too, with the fields that both kinds have under one name. A
  // reference is not JSON.

  function AsFlag(doc: Doc): Option<FlagDefinition> {
    var zero := FlagDefinition("", "", "", false, "", [], EvalResult(false, ""), "", "", 0, 0);
    match doc
    case FlagDoc(f) => Some(f)
    case ExperimentDoc(e) => Some(zero.(key := e.key, createdAt := e.createdAt, updatedAt := e.updatedAt))
    case AssignmentDoc(a) => Some(zero.(enabled := a.enabled))
    case ApiKeyDoc(d) => Some(zero.(createdBy := d.key.createdBy, createdAt := d.key.createdAt))
    case RefDoc(_) => None
  }

  function AsExperiment(doc: Doc): Option<Experiment> {
    var zero := Experiment("", "", "", false, [], [], 0, 0);
    match doc
    case FlagDoc(f) => Some(zero.(key := f.key, createdAt := f.createdAt, updatedAt := f.updatedAt))
    case ExperimentDoc(e) => Some(e)
    case AssignmentDoc(_) => Some(zero)
    case ApiKeyDoc(d) => Some(zero.(name := d.key.name, createdAt := d.key.createdAt))
    case RefDoc(_) => None
  }

  function AsAssignment(doc: Doc): Option<Assignment> {
    var zero := Assignment("", "", false, "", 0, 0);
    match doc
    case FlagDoc(f) => Some(zero.(enabled := f.enabled))
    case AssignmentDoc(a) => Some(a)
    case RefDoc(_) => None
    case _ => Some(zero)
  }

  function AsApiKey(doc: Doc): Option<ApiKeyData> {
    var zero := APIKey("", "", "", "", "", "", 0, 0);
    match doc
    case FlagDoc(f) => Some(ApiKeyData("", zero.(createdBy := f.createdBy, createdAt := f.createdAt)))
    case ExperimentDoc(e) => Some(ApiKeyData("", zero.(name := e.name, createdAt := e.createdAt)))
    case AssignmentDoc(_) => Some(ApiKeyData("", zero))
    case ApiKeyDoc(d) => Some(d)
    case RefDoc(_) => None
  }

  function Decoded<T>(got: Fetched<Doc>, decode: Doc -> Option<T>): Fetched<T> {
    match got
    case Absent => Absent
    case Broken(e) => Broken(e)
    case Present(doc) => if decode(doc).Some? then Present(decode(doc).value) else Broken(Undecodable)
  }

  function GetFlagDoc(db: Db, now: int, key: string): Fetched<FlagDefinition> {
    Decoded(Get(db, now, key), AsFlag)
  }

  function GetExperimentDoc(db: Db, now: int, key: string): Fetched<Experiment> {
    Decoded(Get(db, now, key), AsExperiment)
  }

  function GetAssignmentDoc(db: Db, now: int, key: string): Fetched<Assignment> {
    Decoded(Get(db, now, key), AsAssignment)
  }

  function GetApiKeyDoc(db: Db, now: int, key: string): Fetched<ApiKeyData> {
    Decoded(Get(db, now, key), AsApiKey)
  }

  // ---- RPCs ----

  datatype Op =
    | CreateFlag(tenant: string, flag: FlagDefinition)
    | GetFlag(tenant: string, flagKey: string)
    | ListFlags(tenant: string, page: Option<PageRequest>)
    | UpdateFlag(tenant: string, flag: FlagDefinition)
    | DeleteFlag(tenant: string, flagKey: string)
    | SaveAssignment(tenant: string, assignment: Assignment)
    | GetAssignment(tenant: string, subjectId: string, flagKey: string)
    | CreateExperiment(tenant: string, experiment: Experiment)
    | GetExperiment(tenant: string, experimentKey: string)
    | ListExperiments(tenant: string, page: Option<PageRequest>)
    | UpdateExperiment(tenant: string, experiment: Experiment)
    | CreateAPIKey(tenant: string, apiKey: APIKey)
    | GetAPIKeyByHash(keyHash: string)
    | ListAPIKeys(tenant: string, page: Option<PageRequest>)
    | RevokeAPIKey(tenant: string, keyId: string)

  datatype Response =
    | Failed(error: StoreError)
    | Done
    | FlagIs(flag: Option<FlagDefinition>)
    | FlagPage(flags: seq<FlagDefinition>, flagInfo: PageInfo)
    | AssignmentIs(assignment: Option<Assignment>)
    | ExperimentIs(experiment: Option<Experiment>)
    | ExperimentPage(experiments: seq<Experiment>, experimentInfo: PageInfo)
    | ApiKeyIs(key: APIKey)
    | ApiKeyFound(owned: Option<Owned>)
    | ApiKeyPage(keys: seq<APIKey>, keyInfo: PageInfo)

  datatype Owned = Owned(key: APIKey, tenantId: string)

  /** time.Time.Unix, of a clock in milliseconds */
  function Unix(now: int): int {
    now / 1000
  }

  ghost function PageInfoOf(total: Int32, pr: Option<PageRequest>): PageInfo
    requires total >= 0
  {
    PageInfo(PageOf(pr), PerPageOf(pr), total, TotalPages(total, PerPageOf(pr)))
  }

  datatype Page = Page(keys: seq<string>, info: PageInfo)

  /** paginateKeys on the members of an index; None is the slice-bounds panic. */
  ghost function PageOfKeys(members: set<string>, pr: Option<PageRequest>): Option<Page> {
    var keys := Sorting.Sorted(members);
    match Slice(keys, PageOf(pr), PerPageOf(pr))
    case None => None
    case Some(page) => Some(Page(page, PageInfoOf(Wrap(|keys|), pr)))
  }

  function StampedFlag(f: FlagDefinition, created: int, updated: int): FlagDefinition {
    f.(createdAt := created, updatedAt := updated)
  }

  function DoCreateFlag(db: Db, now: int, tid: string, flag: FlagDefinition): (Db, Response) {
    var f := StampedFlag(flag, Unix(now), Unix(now));
    var db1 := Set(db, Render(FlagPath(tid, f.key)), FlagDoc(f), None);
    match SAdd(db1, now, Render(FlagKeys(tid)), f.key)
    case None => (db1, Failed(WrongType))
    case Some(db2) => (db2, FlagIs(Some(f)))
  }

  function DoGetFlag(db: Db, now: int, tid: string, key: string): Response {
    match GetFlagDoc(db, now, Render(FlagPath(tid, key)))
    case Broken(e) => Failed(e)
    case Absent => FlagIs(None)
    case Present(f) => FlagIs(Some(f))
  }

  ghost function FetchFlags(db: Db, now: int, tid: string, keys: seq<string>): seq<FlagDefinition> {
    if keys == [] then []
    else
      var got := GetFlagDoc(db, now, Render(FlagPath(tid, keys[0])));
      (if got.Present? then [got.value] else []) + FetchFlags(db, now, tid, keys[1..])
  }

  ghost function DoListFlags(db: Db, now: int, tid: string, pr: Option<PageRequest>): Response {
    match SMembers(db, now, Render(FlagKeys(tid)))
    case None => Failed(WrongType)
    case Some(members) =>
      match PageOfKeys(members, pr)
      case None => Failed(SliceBounds)
      case Some(page) => FlagPage(FetchFlags(db, now, tid, page.keys), page.info)
  }

  function DoUpdateFlag(db: Db, now: int, tid: string, flag: FlagDefinition): (Db, Response) {
    var key := Render(FlagPath(tid, flag.key));
    match GetFlagDoc(db, now, key)
    case Broken(e) => (db, Failed(e))
    case Absent => (db, Failed(NotFound))
    case Present(old_) =>
      var f := StampedFlag(flag, old_.createdAt, Unix(now));
      (Set(db, key, FlagDoc(f), None), FlagIs(Some(f)))
  }

  function DoDeleteFlag(db: Db, now: int, tid: string, key: string): (Db, Response) {
    var db1 := Del(db, Render(FlagPath(tid, key)));
    match SRem(db1, now, Render(FlagKeys(tid)), key)
    case None => (db1, Failed(WrongType))
    case Some(db2) => (db2, Done)
  }

  /** When Redis drops an assignment saved at now; at least a millisecond later. */
  function AssignmentDeadline(now: int, expiresAt: int): Option<int> {
    if expiresAt > 0 then
      var ttl := expiresAt * 1000 - now;
      Some(now + if ttl <= 0 then 1 else ttl)
    else None
  }

  function StoredAssignment(now: int, a: Assignment): Assignment {
    a.(assignedAt := if a.assignedAt > 0 then a.assignedAt else Unix(now))
  }

  function DoSaveAssignment(db: Db, now: int, tid: string, a: Assignment): (Db, Response) {
    var key := Render(AssignmentPath(tid, a.subjectId, a.flagKey));
    (Set(db, key, AssignmentDoc(StoredAssignment(now, a)), AssignmentDeadline(now, a.expiresAt)), Done)
  }

  /** Whether the reader takes the record for expired, whatever Redis does. */
  predicate PastExpiry(now: int, a: Assignment) {
    a.expiresAt > 0 && a.expiresAt * 1000 < now
  }

  function DoGetAssignment(db: Db, now: int, tid: string, subject: string, flag: string): Response {
    match GetAssignmentDoc(db, now, Render(AssignmentPath(tid, subject, flag)))
    case Broken(e) => Failed(e)
    case Absent => AssignmentIs(None)
    case Present(a) => AssignmentIs(if PastExpiry(now, a) then None else Some(a))
  }

  function StampedExperiment(e: Experiment, created: int, updated: int): Experiment {
    e.(createdAt := created, updatedAt := updated)
  }

  function DoCreateExperiment(db: Db, now: int, tid: string, experiment: Experiment): (Db, Response) {
    var e := StampedExperiment(experiment, Unix(now), Unix(now));
    var db1 := Set(db, Render(ExperimentPath(tid, e.key)), ExperimentDoc(e), None);
    match SAdd(db1, now, Render(ExperimentKeys(tid)), e.key)
    case None => (db1, Failed(WrongType))
    case Some(db2) => (db2, ExperimentIs(Some(e)))
  }

  function DoGetExperiment(db: Db, now: int, tid: string, key: string): Response {
    match GetExperimentDoc(db, now, Render(ExperimentPath(tid, key)))
    case Broken(e) => Failed(e)
    case Absent => ExperimentIs(None)
    case Present(e) => ExperimentIs(Some(e))
  }

  ghost function FetchExperiments(db: Db, now: int, tid: string, keys: seq<string>): seq<Experiment> {
    if keys == [] then []
    else
      var got := GetExperimentDoc(db, now, Render(ExperimentPath(tid, keys[0])));
      (if got.Present? then [got.value] else []) + FetchExperiments(db, now, tid, keys[1..])
  }

  ghost function DoListExperiments(db: Db, now: int, tid: string, pr: Option<PageRequest>): Response {
    match SMembers(db, now, Render(ExperimentKeys(tid)))
    case None => Failed(WrongType)
    case Some(members) =>
      match PageOfKeys(members, pr)
      case None => Failed(SliceBounds)
      case Some(page) => ExperimentPage(FetchExperiments(db, now, tid, page.keys), page.info)
  }

  function DoUpdateExperiment(db: Db, now: int, tid: string, experiment: Experiment): (Db, Response) {
    var key := Render(ExperimentPath(tid, experiment.key));
    match GetExperimentDoc(db, now, key)
    case Broken(e) => (db, Failed(e))
    case Absent => (db, Failed(NotFound))
    case Present(old_) =>
      var e := StampedExperiment(experiment, old_.createdAt, Unix(now));
      (Set(db, key, ExperimentDoc(e), None), ExperimentIs(Some(e)))
  }

  /** A new key is stored without a revocation time, whatever the request holds. */
  function NewApiKey(now: int, k: APIKey): APIKey {
    k.(createdAt := Unix(now), revokedAt := 0)
  }

  function DoCreateAPIKey(db: Db, now: int, tid: string, apiKey: APIKey): (Db, Response) {
    var k := NewApiKey(now, apiKey);
    var db1 := Set(db, Render(ApiKeyPath(tid, k.id)), ApiKeyDoc(ApiKeyData(tid, k)), None);
    var added := SAdd(db1, now, Render(ApiKeyIds(tid)), k.id);
    var db2 := if added.Some? then added.value else db1;
    var db3 := Set(db2, Render(HashPath(k.keyHash)), RefDoc(BuildKey([tid, k.id])), None);
    (db3, if added.Some? then ApiKeyIs(k) else Failed(WrongType))
  }

  function DoGetAPIKeyByHash(db: Db, now: int, hash: string): Response {
    match Get(db, now, Render(HashPath(hash)))
    case Broken(e) => Failed(e)
    case Absent => ApiKeyFound(None)
    case Present(doc) =>
      if !doc.RefDoc? then Failed(Undecodable)
      else
        var cut := Cut(doc.ref);
        if !cut.found then ApiKeyFound(None)
        else
          match GetApiKeyDoc(db, now, Render(ApiKeyPath(cut.before, cut.after)))
          case Broken(e) => Failed(e)
          case Absent => ApiKeyFound(None)
          case Present(d) => ApiKeyFound(Some(Owned(d.key, d.tenantId)))
  }

  ghost function FetchApiKeys(db: Db, now: int, tid: string, ids: seq<string>): seq<APIKey> {
    if ids == [] then []
    else
      var got := GetApiKeyDoc(db, now, Render(ApiKeyPath(tid, ids[0])));
      (if got.Present? then [got.value.key] else []) + FetchApiKeys(db, now, tid, ids[1..])
  }

  ghost function DoListAPIKeys(db: Db, now: int, tid: string, pr: Option<PageRequest>): Response {
    match SMembers(db, now, Render(ApiKeyIds(tid)))
    case None => Failed(WrongType)
    case Some(members) =>
      match PageOfKeys(members, pr)
      case None => Failed(SliceBounds)
      case Some(page) => ApiKeyPage(FetchApiKeys(db, now, tid, page.keys), page.info)
  }

  function DoRevokeAPIKey(db: Db, now: int, tid: string, id: string): (Db, Response) {
    var key := Render(ApiKeyPath(tid, id));
    match GetApiKeyDoc(db, now, key)
    case Broken(e) => (db, Failed(e))
    case Absent => (db, Failed(NotFound))
    case Present(d) =>
      (Set(db, key, ApiKeyDoc(d.(key := d.key.(revokedAt := Unix(now)))), None), Done)
  }

  ghost function Step(db: Db, op: Op, now: int): (Db, Response) {
    match op
    case CreateFlag(t, f) => DoCreateFlag(db, now, t, f)
    case GetFlag(t, k) => (db, DoGetFlag(db, now, t, k))
    case ListFlags(t, pr) => (db, DoListFlags(db, now, t, pr))
    case UpdateFlag(t, f) => DoUpdateFlag(db, now, t, f)
    case DeleteFlag(t, k) => DoDeleteFlag(db, now, t, k)
    case SaveAssignment(t, a) => DoSaveAssignment(db, now, t, a)
    case GetAssignment(t, s, f) => (db, DoGetAssignment(db, now, t, s, f))
    case CreateExperiment(t, e) => DoCreateExperiment(db, now, t, e)
    case GetExperiment(t, k) => (db, DoGetExperiment(db, now, t, k))
    case ListExperiments(t, pr) => (db, DoListExperiments(db, now, t, pr))
    case UpdateExperiment(t, e) => DoUpdateExperiment(db, now, t, e)
    case CreateAPIKey(t, k) => DoCreateAPIKey(db, now, t, k)
    case GetAPIKeyByHash(h) => (db, DoGetAPIKeyByHash(db, now, h))
    case ListAPIKeys(t, pr) => (db, DoListAPIKeys(db, now, t, pr))
    case RevokeAPIKey(t, id) => DoRevokeAPIKey(db, now, t, id)
  }

  // ---- Runs ----

  /** An RPC and the clock when it is served. */
  datatype Call = Call(op: Op, now: int)

  ghost function Run(db: Db, calls: seq<Call>): Db
    decreases |calls|
  {
    if calls == [] then db
    else Run(Step(db, calls[0].op, calls[0].now).0, calls[1..])
  }

  ghost function Responses(db: Db, calls: seq<Call>): (rs: seq<Response>)
    ensures |rs| == |calls|
    decreases |calls|
  {
    if calls == [] then []
    else
      var (next, r) := Step(db, calls[0].op, calls[0].now);
      [r] + Responses(next, calls[1..])
  }
}
