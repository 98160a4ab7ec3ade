/** When an index set lists exactly the records that are stored, for ids of any shape. */
module IndexCoherence {
  import opened Options
  import opened Records
  import opened Keys
  import opened KeyConflicts
  import opened OwnRecords
  import opened F = FlatStore
  import opened Refinement
  import opened Disturbance

  /** The kinds of records that have an index. */
  datatype Family = Flags | Experiments | ApiKeys

  function Word(fam: Family): string {
    match fam
    case Flags => FLAGS
    case Experiments => EXPERIMENTS
    case ApiKeys => "apikeys"
  }

  function RecordPath(fam: Family, t: string, k: string): Path {
    match fam
    case Flags => FlagPath(t, k)
    case Experiments => ExperimentPath(t, k)
    case ApiKeys => ApiKeyPath(t, k)
  }

  function IndexPath(fam: Family, t: string): Path {
    match fam
    case Flags => FlagKeys(t)
    case Experiments => ExperimentKeys(t)
    case ApiKeys => ApiKeyIds(t)
  }

  /** The entry is a record of the family and of t with the key k, and does not expire. */
  predicate IsRecordOf(entry: Option<Entry>, fam: Family, t: string, k: string) {
    match entry
    case Some(Data(FlagDoc(f), None)) => fam.Flags? && f.key == k
    case Some(Data(ExperimentDoc(e), None)) => fam.Experiments? && e.key == k
    case Some(Data(ApiKeyDoc(d), None)) => fam.ApiKeys? && d.tenantId == t && d.key.id == k
    case _ => false
  }

  predicate Lists(index: Option<Entry>, k: string) {
    index.Some? && index.value.Members? && k in index.value.members
  }

  /** The index lists k if and only if something is stored for k, and that is a record with that key. */
  predicate ExactAt(db: Db, fam: Family, t: string, k: string) {
    var record := Slot(db, RecordPath(fam, t, k));
    && (Lists(Slot(db, IndexPath(fam, t)), k) <==> record.Some?)
    && (record.Some? ==> IsRecordOf(record, fam, t, k))
  }

  ghost predicate IndexExact(db: Db, fam: Family, t: string) {
    && (Slot(db, IndexPath(fam, t)).Some? ==> Slot(db, IndexPath(fam, t)).value.Members?)
    && forall k: string :: ExactAt(db, fam, t, k)
  }

  // ---- Keys that stay apart ----

  lemma RecordsApart(fam: Family, t: string, j: string, k: string)
    requires j != k
    ensures Render(RecordPath(fam, t, j)) != Render(RecordPath(fam, t, k))
  {
    hide Render;
    match fam
    case Flags => FlagsApart(t, j, k);
    case Experiments => ExperimentsApart(t, j, k);
    case ApiKeys => ApiKeysApart(t, j, k);
  }

  lemma IndexApart(fam: Family, t: string, k: string)
    ensures Render(RecordPath(fam, t, k)) != Render(IndexPath(fam, t))
  {
    hide Render;
    if Render(RecordPath(fam, t, k)) == Render(IndexPath(fam, t)) {
      FamiliesApart(RecordPath(fam, t, k), IndexPath(fam, t));
    }
  }

  /** The key is neither the index of t nor that of a record of t. */
  ghost predicate Elsewhere(key: string, fam: Family, t: string) {
    key != Render(IndexPath(fam, t)) && forall k: string :: key != Render(RecordPath(fam, t, k))
  }

  /** Tenant u has no key among the records of t in the family. */
  predicate Spares(u: string, t: string, fam: Family) {
    u == t || (!Extends(u, t) && !ExtendsBy(t, u, Word(fam)))
  }

  lemma OthersElsewhere(q: Path, fam: Family, t: string)
    requires !q.HashPath? && q.tenant != t && Spares(q.tenant, t, fam)
    ensures Elsewhere(Render(q), fam, t)
  {
    hide Render, Extends, ExtendsBy;
    if Render(q) == Render(IndexPath(fam, t)) {
      OthersKey(q, IndexPath(fam, t), fam, t);
    }
    forall k: string
      ensures Render(q) != Render(RecordPath(fam, t, k))
    {
      if Render(q) == Render(RecordPath(fam, t, k)) {
        OthersKey(q, RecordPath(fam, t, k), fam, t);
      }
    }
  }

  lemma OthersKey(q: Path, p: Path, fam: Family, t: string)
    requires !q.HashPath? && q.tenant != t && Render(q) == Render(p)
    requires p == IndexPath(fam, t) || (exists k: string :: p == RecordPath(fam, t, k))
    ensures !Spares(q.tenant, t, fam)
  {
    hide Render, Extends, ExtendsBy;
    if |t| <= |q.tenant| {
      CollisionExtendsBy(p, q);
    } else {
      CollisionExtends(q, p);
    }
  }

  lemma HashesElsewhere(h: string, fam: Family, t: string)
    requires !InHashSpace(t)
    ensures Elsewhere(Render(HashPath(h)), fam, t)
  {
    hide Render, InHashSpace;
    if Render(IndexPath(fam, t)) == Render(HashPath(h)) {
      HashKeysApart(IndexPath(fam, t), h);
    }
    forall k: string
      ensures Render(HashPath(h)) != Render(RecordPath(fam, t, k))
    {
      if Render(RecordPath(fam, t, k)) == Render(HashPath(h)) {
        HashKeysApart(RecordPath(fam, t, k), h);
      }
    }
  }

  lemma OtherFamiliesElsewhere(q: Path, fam: Family, t: string)
    requires !q.HashPath? && q.tenant == t
    requires !SameFamily(q, IndexPath(fam, t)) && !SameFamily(q, RecordPath(fam, t, ""))
    ensures Elsewhere(Render(q), fam, t)
  {
    hide Render;
    if Render(q) == Render(IndexPath(fam, t)) {
      FamiliesApart(q, IndexPath(fam, t));
    }
    forall k: string
      ensures Render(q) != Render(RecordPath(fam, t, k))
    {
      if Render(q) == Render(RecordPath(fam, t, k)) {
        FamiliesApart(q, RecordPath(fam, t, k));
      }
    }
  }

  // ---- What keeps an index exact ----

  /** The two stores are the same at the keys of t in the family. */
  ghost predicate SameThere(db: Db, db': Db, fam: Family, t: string) {
    && Slot(db', IndexPath(fam, t)) == Slot(db, IndexPath(fam, t))
    && forall k: string :: Slot(db', RecordPath(fam, t, k)) == Slot(db, RecordPath(fam, t, k))
  }

  lemma SameStaysExact(db: Db, db': Db, fam: Family, t: string)
    requires IndexExact(db, fam, t) && SameThere(db, db', fam, t)
    ensures IndexExact(db', fam, t)
  {
    hide Slot, IsRecordOf, Lists;
    forall k: string
      ensures ExactAt(db', fam, t, k)
    {
      assert ExactAt(db, fam, t, k);
    }
  }

  lemma SetElsewhere(db: Db, key: string, doc: Doc, fam: Family, t: string)
    requires IndexExact(db, fam, t) && Elsewhere(key, fam, t)
    ensures IndexExact(Set(db, key, doc, None), fam, t)
  {
    hide Render, ExactAt;
    SameStaysExact(db, Set(db, key, doc, None), fam, t);
  }

  lemma CallElsewhere(db: Db, op: Op, now: int, fam: Family, t: string)
    requires IndexExact(db, fam, t) && forall q: Path :: Touches(op, q) ==> Elsewhere(Render(q), fam, t)
    ensures IndexExact(Step(db, op, now).0, fam, t)
  {
    var db' := Step(db, op, now).0;
    hide Render, Step, Touches, ExactAt;
    StepLeaves(db, op, now, Render(IndexPath(fam, t)));
    forall k: string
      ensures Slot(db', RecordPath(fam, t, k)) == Slot(db, RecordPath(fam, t, k))
    {
      StepLeaves(db, op, now, Render(RecordPath(fam, t, k)));
    }
    SameStaysExact(db, db', fam, t);
  }

  /** SET of a record and SADD of its key. */
  lemma CreationKeeps(db: Db, fam: Family, t: string, k: string, doc: Doc, now: int)
    requires IndexExact(db, fam, t) && IsRecordOf(Some(Data(doc, None)), fam, t, k)
    ensures var db1 := Set(db, Render(RecordPath(fam, t, k)), doc, None);
            var added := SAdd(db1, now, Render(IndexPath(fam, t)), k);
            added.Some? && IndexExact(added.value, fam, t)
  {
    var db1 := Set(db, Render(RecordPath(fam, t, k)), doc, None);
    IndexApart(fam, t, k);
    var added := SAdd(db1, now, Render(IndexPath(fam, t)), k);
    hide Render, RecordPath, IndexPath, IsRecordOf;
    assert added.Some?;
    forall j: string
      ensures ExactAt(added.value, fam, t, j)
    {
      assert ExactAt(db, fam, t, j);
      IndexApart(fam, t, j);
      if j != k {
        RecordsApart(fam, t, j, k);
      }
    }
  }

  /** SET of a record where there is one. */
  lemma UpdateKeeps(db: Db, fam: Family, t: string, k: string, doc: Doc)
    requires IndexExact(db, fam, t) && IsRecordOf(Some(Data(doc, None)), fam, t, k)
    requires Slot(db, RecordPath(fam, t, k)).Some?
    ensures IndexExact(Set(db, Render(RecordPath(fam, t, k)), doc, None), fam, t)
  {
    var db' := Set(db, Render(RecordPath(fam, t, k)), doc, None);
    IndexApart(fam, t, k);
    hide Render, RecordPath, IndexPath, IsRecordOf;
    forall j: string
      ensures ExactAt(db', fam, t, j)
    {
      assert ExactAt(db, fam, t, j);
      if j != k {
        RecordsApart(fam, t, j, k);
      }
    }
  }

  /** DEL of a record and SREM of its key. */
  lemma DeletionKeeps(db: Db, fam: Family, t: string, k: string, now: int)
    requires IndexExact(db, fam, t)
    ensures var db1 := Del(db, Render(RecordPath(fam, t, k)));
            var removed := SRem(db1, now, Render(IndexPath(fam, t)), k);
            removed.Some? && IndexExact(removed.value, fam, t)
  {
    var db1 := Del(db, Render(RecordPath(fam, t, k)));
    IndexApart(fam, t, k);
    var removed := SRem(db1, now, Render(IndexPath(fam, t)), k);
    hide Render, RecordPath, IndexPath, IsRecordOf;
    assert removed.Some?;
    forall j: string
      ensures ExactAt(removed.value, fam, t, j)
    {
      assert ExactAt(db, fam, t, j);
      IndexApart(fam, t, j);
      if j != k {
        RecordsApart(fam, t, j, k);
      }
    }
  }

  // ---- Calls ----

  /** The call is one that may write records of the family. */
  predicate Concerns(op: Op, fam: Family) {
    match fam
    case Flags => op.CreateFlag? || op.UpdateFlag? || op.DeleteFlag?
    case Experiments => op.CreateExperiment? || op.UpdateExperiment?
    case ApiKeys => op.CreateAPIKey? || op.RevokeAPIKey?
  }

  lemma TouchedPath(op: Op, q: Path, fam: Family)
    requires Touches(op, q) && !q.HashPath?
    ensures !op.GetAPIKeyByHash? && q.tenant == op.tenant
    ensures !Concerns(op, fam) ==>
              !SameFamily(q, IndexPath(fam, q.tenant)) && !SameFamily(q, RecordPath(fam, q.tenant, ""))
  {
  }

  lemma OwnFlagCall(db: Db, op: Op, now: int, t: string)
    requires IndexExact(db, Flags, t) && Concerns(op, Flags) && op.tenant == t
    ensures IndexExact(Step(db, op, now).0, Flags, t)
  {
    hide Render, IndexExact, SAdd, SRem;
    match op
    case CreateFlag(_, f) =>
      CreationKeeps(db, Flags, t, f.key, FlagDoc(StampedFlag(f, Unix(now), Unix(now))), now);
    case UpdateFlag(_, f) =>
      var got := GetFlagDoc(db, now, Render(FlagPath(t, f.key)));
      if got.Present? {
        UpdateKeeps(db, Flags, t, f.key, FlagDoc(StampedFlag(f, got.value.createdAt, Unix(now))));
      }
    case DeleteFlag(_, k) => DeletionKeeps(db, Flags, t, k, now);
  }

  lemma OwnExperimentCall(db: Db, op: Op, now: int, t: string)
    requires IndexExact(db, Experiments, t) && Concerns(op, Experiments) && op.tenant == t
    ensures IndexExact(Step(db, op, now).0, Experiments, t)
  {
    hide Render, IndexExact, SAdd;
    match op
    case CreateExperiment(_, e) =>
      CreationKeeps(db, Experiments, t, e.key, ExperimentDoc(StampedExperiment(e, Unix(now), Unix(now))), now);
    case UpdateExperiment(_, e) =>
      var got := GetExperimentDoc(db, now, Render(ExperimentPath(t, e.key)));
      if got.Present? {
        UpdateKeeps(db, Experiments, t, e.key, ExperimentDoc(StampedExperiment(e, got.value.createdAt, Unix(now))));
      }
  }

  lemma OwnApiKeyCall(db: Db, op: Op, now: int, t: string)
    requires IndexExact(db, ApiKeys, t) && Concerns(op, ApiKeys) && op.tenant == t && !InHashSpace(t)
    ensures IndexExact(Step(db, op, now).0, ApiKeys, t)
  {
    match op
    case CreateAPIKey(_, k) =>
      hide Render, IndexExact, SAdd, Elsewhere, InHashSpace, BuildKey;
      var doc := ApiKeyDoc(ApiKeyData(t, NewApiKey(now, k)));
      CreationKeeps(db, ApiKeys, t, k.id, doc, now);
      HashesElsewhere(k.keyHash, ApiKeys, t);
      var db1 := Set(db, Render(ApiKeyPath(t, k.id)), doc, None);
      var db2 := SAdd(db1, now, Render(ApiKeyIds(t)), k.id).value;
      SetElsewhere(db2, Render(HashPath(k.keyHash)), RefDoc(BuildKey([t, k.id])), ApiKeys, t);
    case RevokeAPIKey(_, id) =>
      assert ExactAt(db, ApiKeys, t, id);
      hide Render, IndexExact;
      var got := GetApiKeyDoc(db, now, Render(ApiKeyPath(t, id)));
      if got.Present? {
        UpdateKeeps(db, ApiKeys, t, id, ApiKeyDoc(got.value.(key := got.value.key.(revokedAt := Unix(now)))));
      }
  }

  /** The call is a lookup by hash, or by t, or by a tenant that has no key among the records of t. */
  predicate CallSpares(op: Op, t: string, fam: Family) {
    op.GetAPIKeyByHash? || Spares(op.tenant, t, fam)
  }

  /** No such call takes an index out of step with the records. */
  lemma CallKeepsIndex(db: Db, op: Op, now: int, fam: Family, t: string)
    requires IndexExact(db, fam, t) && !InHashSpace(t) && CallSpares(op, t, fam)
    ensures IndexExact(Step(db, op, now).0, fam, t)
  {
    hide Render, Step, IndexExact, InHashSpace, Elsewhere, Touches;
    if Concerns(op, fam) && op.tenant == t {
      match fam
      case Flags => OwnFlagCall(db, op, now, t);
      case Experiments => OwnExperimentCall(db, op, now, t);
      case ApiKeys => OwnApiKeyCall(db, op, now, t);
    } else {
      forall q: Path | Touches(op, q)
        ensures Elsewhere(Render(q), fam, t)
      {
        TouchedElsewhere(op, q, fam, t);
      }
      CallElsewhere(db, op, now, fam, t);
    }
  }

  lemma TouchedElsewhere(op: Op, q: Path, fam: Family, t: string)
    requires Touches(op, q) && !InHashSpace(t) && CallSpares(op, t, fam)
    requires !(Concerns(op, fam) && op.tenant == t)
    ensures Elsewhere(Render(q), fam, t)
  {
    hide Render, InHashSpace, Elsewhere, Extends, ExtendsBy;
    if q.HashPath? {
      HashesElsewhere(q.hash, fam, t);
    } else {
      TouchedPath(op, q, fam);
      hide Concerns, Touches;
      if q.tenant != t {
        OthersElsewhere(q, fam, t);
      } else {
        OtherFamiliesElsewhere(q, fam, t);
      }
    }
  }

  lemma {:induction false} IndexStaysExact(db: Db, calls: seq<Call>, fam: Family, t: string)
    requires IndexExact(db, fam, t) && !InHashSpace(t) && forall call <- calls :: CallSpares(call.op, t, fam)
    ensures IndexExact(Run(db, calls), fam, t)
    decreases |calls|
  {
    hide IndexExact, InHashSpace, CallSpares, Step;
    if calls != [] {
      CallKeepsIndex(db, calls[0].op, calls[0].now, fam, t);
      IndexStaysExact(Step(db, calls[0].op, calls[0].now).0, calls[1..], fam, t);
    }
  }

  lemma NothingIsExact(fam: Family, t: string)
    ensures IndexExact(map[], fam, t)
  {
    hide Render;
  }

  /**
   * In every state that calls of any tenants reach, an index set lists exactly the
   * keys whose record is stored, for every tenant that is not among the hashes and
   * has no other tenant's keys among its records; subjects may be called anything.
   */
  lemma IndexesAreExact(calls: seq<Call>, fam: Family, t: string, now: int)
    requires !InHashSpace(t) && forall call <- calls :: CallSpares(call.op, t, fam)
    ensures var db := Run(map[], calls);
            && IndexExact(db, fam, t)
            && exists s :: SMembers(db, now, Render(IndexPath(fam, t))) == Some(s)
                           && forall k: string :: k in s <==> Slot(db, RecordPath(fam, t, k)).Some?
  {
    NothingIsExact(fam, t);
    IndexStaysExact(map[], calls, fam, t);
    MembersAreExact(Run(map[], calls), fam, t, now);
  }

  lemma MembersAreExact(db: Db, fam: Family, t: string, now: int)
    requires IndexExact(db, fam, t)
    ensures exists s :: SMembers(db, now, Render(IndexPath(fam, t))) == Some(s)
                        && forall k: string :: k in s <==> Slot(db, RecordPath(fam, t, k)).Some?
  {
    hide Render, RecordPath, IndexPath;
    var s := SMembers(db, now, Render(IndexPath(fam, t))).value;
    forall k: string
      ensures k in s <==> Slot(db, RecordPath(fam, t, k)).Some?
    {
      assert ExactAt(db, fam, t, k);
    }
  }

  // ---- Runs that take an index out of step ----

  lemma RecordKeyIs(fam: Family, t: string, k: string)
    ensures Render(RecordPath(fam, t, k)) == t + (":" + (Word(fam) + (":" + k)))
  {
    RenderThree(t, Word(fam), k);
  }

  lemma IndexesOfTwoApart(p: Path, q: Path)
    requires !p.HashPath? && !q.HashPath? && p.tenant != q.tenant && |Parts(p)| == |Parts(q)| == 2
    ensures Render(p) != Render(q)
  {
    hide Render;
    if Render(p) == Render(q) {
      if |p.tenant| <= |q.tenant| {
        CollisionExtendsBy(p, q);
      } else {
        CollisionExtendsBy(q, p);
      }
    }
  }

  lemma UnlistedIsInexact(db: Db, fam: Family, t: string, k: string)
    requires Slot(db, RecordPath(fam, t, k)).Some? && !Lists(Slot(db, IndexPath(fam, t)), k)
    ensures !IndexExact(db, fam, t)
  {
    hide Slot;
    assert !ExactAt(db, fam, t, k);
  }

  lemma WrittenIsThere(q: Path)
    requires IsRecord(q)
    ensures Slot(Step(map[], Writes(q, ""), 0).0, q).Some?
  {
    hide Render, BuildKey;
  }

  lemma WritesNoIndexOf(q: Path, fam: Family, t: string, k: string, p: Path)
    requires IsRecord(q) && q.tenant != t && !InHashSpace(t) && Render(q) == Render(RecordPath(fam, t, k))
    requires Touches(Writes(q, ""), p)
    ensures Render(p) != Render(IndexPath(fam, t))
  {
    WrittenPaths(q, p);
    hide Render, InHashSpace, Touches, Writes;
    if p.HashPath? {
      HashesElsewhere(p.hash, fam, t);
    } else if p == q {
      IndexApart(fam, t, k);
    } else {
      IndexesOfTwoApart(p, IndexPath(fam, t));
    }
  }

  lemma WrittenPaths(q: Path, p: Path)
    requires IsRecord(q) && Touches(Writes(q, ""), p)
    ensures p == q || p.HashPath? || (p.tenant == q.tenant && |Parts(p)| == 2)
  {
  }

  lemma OneCall(db: Db, op: Op, now: int)
    ensures Run(db, [Call(op, now)]) == Step(db, op, now).0
  {
    hide Step;
    var calls := [Call(op, now)];
    assert calls[1..] == [];
    assert Run(db, calls) == Run(Step(db, op, now).0, calls[1..]);
  }

  /** A record that another tenant writes among those of t is not in the index of t. */
  lemma OthersRecordUnlisted(q: Path, fam: Family, t: string, k: string) returns (calls: seq<Call>)
    requires IsRecord(q) && q.tenant != t && !InHashSpace(t) && Render(q) == Render(RecordPath(fam, t, k))
    ensures CallsOfBoth(calls, t, q.tenant) && !IndexExact(Run(map[], calls), fam, t)
  {
    var op := Writes(q, "");
    calls := [Call(op, 0)];
    WrittenIsThere(q);
    OneCall(map[], op, 0);
    assert op.tenant == q.tenant;
    hide Render, Step, InHashSpace, Run, IndexExact, Touches, Writes;
    forall p: Path | Touches(op, p)
      ensures Render(p) != Render(IndexPath(fam, t))
    {
      WritesNoIndexOf(q, fam, t, k, p);
    }
    StepLeaves(map[], op, 0, Render(IndexPath(fam, t)));
    UnlistedIsInexact(Step(map[], op, 0).0, fam, t, k);
  }

  lemma ExtendingTenantUnlisted(fam: Family, t: string, u: string) returns (calls: seq<Call>)
    requires Extends(u, t) && !InHashSpace(t)
    ensures CallsOfBoth(calls, t, u) && !IndexExact(Run(map[], calls), fam, t)
  {
    hide Render, Run, InHashSpace, IndexExact;
    var id := Word(fam) + (":" + "k");
    CutOfAppended(Word(fam), "k");
    var q := ExtendedRecord(u, t, id);
    RecordKeyIs(fam, t, "k");
    hide CallsOfBoth, Extends;
    assert u != t by {
      ExtensionDiffers(u, t);
    }
    calls := OthersRecordUnlisted(q, fam, t, "k");
  }

  lemma ExtensionDiffers(t: string, u: string)
    requires Extends(t, u) || (exists word: string :: ExtendsBy(t, u, word))
    ensures t != u
  {
  }

  lemma ExtendedTenantUnlisted(fam: Family, t: string, u: string) returns (calls: seq<Call>)
    requires ExtendsBy(t, u, Word(fam)) && !InHashSpace(t)
    ensures CallsOfBoth(calls, t, u) && !IndexExact(Run(map[], calls), fam, t)
  {
    hide Render, Run, InHashSpace, IndexExact, CallsOfBoth;
    var c, tail := Cut(u[|t| + 1..]), "flags" + (":" + "k");
    var k := if c.found then c.after + (":" + tail) else tail;
    ExtensionDiffers(t, u);
    TailWithin(t, u, Word(fam), tail);
    FlagKeyIs(u, "k");
    RecordKeyIs(fam, t, k);
    hide Cut, ExtendsBy;
    calls := OthersRecordUnlisted(FlagPath(u, "k"), fam, t, k);
  }

  /** A tenant among the hashes finds a reference where a record should be. */
  lemma ReferenceUnlisted(fam: Family, t: string, u: string) returns (calls: seq<Call>)
    requires InHashSpace(t)
    ensures CallsOfBoth(calls, t, u) && !IndexExact(Run(map[], calls), fam, t)
  {
    var h := HashOf(RecordPath(fam, t, "k"));
    var op := CreateAPIKey(t, APIKey("i", h, "", "", "", "", 0, 0));
    calls := [Call(op, 0)];
    var db := Step(map[], op, 0).0;
    OneCall(map[], op, 0);
    assert "i" != "k" by {
      assert "i"[0] != "k"[0];
    }
    hide InHashSpace, Run, Render, Step;
    if fam.ApiKeys? {
      KeyReferenceStands(t, h, "i");
    } else {
      OtherReferenceStands(fam, t, h, "i");
    }
    UnlistedIsInexact(db, fam, t, "k");
  }

  /** A key whose hash leads to its own tenant's record k: that is not in the index of API keys. */
  lemma KeyReferenceStands(t: string, h: string, id: string)
    requires Render(HashPath(h)) == Render(ApiKeyPath(t, "k")) && id != "k"
    ensures var db := Step(map[], CreateAPIKey(t, APIKey(id, h, "", "", "", "", 0, 0)), 0).0;
            Slot(db, ApiKeyPath(t, "k")).Some? && !Lists(Slot(db, ApiKeyIds(t)), "k")
  {
    IndexApart(ApiKeys, t, "k");
    IndexApart(ApiKeys, t, id);
    hide Render, BuildKey;
  }

  /** Nor is it in any other index. */
  lemma OtherReferenceStands(fam: Family, t: string, h: string, id: string)
    requires Render(HashPath(h)) == Render(RecordPath(fam, t, "k")) && !fam.ApiKeys?
    ensures var db := Step(map[], CreateAPIKey(t, APIKey(id, h, "", "", "", "", 0, 0)), 0).0;
            Slot(db, RecordPath(fam, t, "k")).Some? && Slot(db, IndexPath(fam, t)) == None
  {
    var op := CreateAPIKey(t, APIKey(id, h, "", "", "", "", 0, 0));
    IndexApart(fam, t, "k");
    OtherFamiliesElsewhere(ApiKeyPath(t, id), fam, t);
    OtherFamiliesElsewhere(ApiKeyIds(t), fam, t);
    HashStands(map[], op.apiKey, t);
    hide Render, Step, RecordPath, IndexPath;
    StepLeaves(map[], op, 0, Render(IndexPath(fam, t)));
  }

  lemma HashStands(db: Db, k: APIKey, t: string)
    ensures Slot(Step(db, CreateAPIKey(t, k), 0).0, HashPath(k.keyHash)).Some?
  {
    hide Render, BuildKey;
  }

  /**
   * For any two tenants, and for flags, experiments and API keys alike: some calls of
   * the two leave an index of t out of step with its records if and only if t is
   * among the hashes, t extends u by the name of any family, or u extends t by the
   * name of that family.
   */
  lemma IndexBreaksExactlyWhen(fam: Family, t: string, u: string)
    requires t != u
    ensures (exists calls: seq<Call> :: CallsOfBoth(calls, t, u) && !IndexExact(Run(map[], calls), fam, t)) <==>
            InHashSpace(t) || Extends(u, t) || ExtendsBy(t, u, Word(fam))
  {
    hide InHashSpace, Extends, ExtendsBy, IndexExact, Run;
    if InHashSpace(t) {
      var calls := ReferenceUnlisted(fam, t, u);
    } else if Extends(u, t) {
      var calls := ExtendingTenantUnlisted(fam, t, u);
    } else if ExtendsBy(t, u, Word(fam)) {
      var calls := ExtendedTenantUnlisted(fam, t, u);
    } else {
      forall calls: seq<Call> | CallsOfBoth(calls, t, u)
        ensures IndexExact(Run(map[], calls), fam, t)
      {
        assert forall call <- calls :: CallSpares(call.op, t, fam);
        NothingIsExact(fam, t);
        IndexStaysExact(map[], calls, fam, t);
      }
    }
  }

  /** For instance, tenant a:flags creates flag x, and tenant a has a flag that its index does not list. */
  lemma ColonTenantHidesFlag(f: FlagDefinition, now: int)
    requires f.key == "x"
    ensures var db := Run(map[], [Call(CreateFlag("a:flags", f), now)]);
            Slot(db, FlagPath("a", "flags:x")).Some? && Slot(db, FlagKeys("a")) == None
  {
    var op := CreateFlag("a:flags", f);
    OneCall(map[], op, now);
    FlagKeyIs("a:flags", "x");
    FlagKeyIs("a", "flags:x");
    assert "a:flags" + (":" + ("flags" + (":" + "x"))) == "a" + (":" + ("flags" + (":" + "flags:x")));
    IndexApart(Flags, "a", "flags:x");
    IndexesOfTwoApart(FlagKeys("a:flags"), FlagKeys("a"));
    hide Render, Run;
    StepLeaves(map[], op, now, Render(FlagKeys("a")));
    FlagStands(map[], "a:flags", f, now);
  }

  lemma FlagStands(db: Db, t: string, f: FlagDefinition, now: int)
    ensures Slot(Step(db, CreateFlag(t, f), now).0, FlagPath(t, f.key)).Some?
  {
    hide Render;
  }
}
