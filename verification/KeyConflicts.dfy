/** Which tenants can write keys that another tenant reads. */
module KeyConflicts {
  import opened Strings
  import opened Keys

  /** Cutting a:b:rest at its first colon, when a itself may have colons. */
  lemma {:induction false} CutOfJoin(a: string, b: string)
    ensures Cut(a + (":" + b)) ==
            if Cut(a).found then CutResult(Cut(a).before, Cut(a).after + (":" + b), true) else CutResult(a, b, true)
    decreases |a|
  {
    var s := a + (":" + b);
    if a == "" {
      assert s == ":" + b && s[1..] == b;
    } else if a[0] == ':' {
      assert s[1..] == a[1..] + (":" + b);
    } else {
      assert s[1..] == a[1..] + (":" + b);
      CutOfJoin(a[1..], b);
      assert a == [a[0]] + a[1..];
    }
  }

  /** A tenant whose own keys lie among the API key hashes. */
  predicate InHashSpace(t: string) {
    Cut(t).before == "apikey_by_hash"
  }

  /** The longer id begins with the shorter one and a colon. */
  predicate Under(u: string, t: string) {
    |t| < |u| && u[..|t|] == t && u[|t|] == ':'
  }

  /**
   * For a tenant s:rest, the root s:apikeys:rest under which its keys are looked up
   * by hash: strings.Cut stops at the first colon.
   */
  function LookupRoot(t: string): string {
    Cut(t).before + (":" + ("apikeys" + (":" + Cut(t).after)))
  }

  /** Tenant u can write keys under which those of t are looked up by hash. */
  predicate ReachesLookups(u: string, t: string) {
    Cut(t).found && (u == LookupRoot(t) || Extends(u, LookupRoot(t)) || Under(u, LookupRoot(t)))
  }

  /** Tenant u can change what tenant t is told. */
  predicate Disturbs(u: string, t: string) {
    Extends(t, u) || Extends(u, t) || InHashSpace(t) || InHashSpace(u) || ReachesLookups(u, t)
  }

  /** The path belongs to tenant u. */
  predicate OfTenant(q: Path, u: string) {
    !q.HashPath? && q.tenant == u
  }

  lemma Rejoin(u: string, r: string)
    requires Under(r, u)
    ensures r == u + (":" + r[|u| + 1..])
  {
  }

  lemma ExtensionIs(t: string, u: string, word: string)
    requires ExtendsBy(t, u, word)
    ensures var c := Cut(u[|t| + 1..]); u == t + (":" + if c.found then word + (":" + c.after) else word)
  {
    JoinUndoesCut(u[|t| + 1..]);
    hide Cut;
    Rejoin(t, u);
  }

  /** A key of u is one of t, behind the word that it extends t by. */
  lemma TailWithin(t: string, u: string, word: string, tail: string)
    requires ExtendsBy(t, u, word)
    ensures var c := Cut(u[|t| + 1..]);
            u + (":" + tail) == t + (":" + (word + (":" + if c.found then c.after + (":" + tail) else tail)))
  {
    ExtensionIs(t, u, word);
    var c := Cut(u[|t| + 1..]);
    hide Cut, ExtendsBy;
    if c.found {
      Regroup(t, word, c.after, tail);
    } else {
      Regroup2(t, word, tail);
    }
  }

  lemma KeyOf(q: Path)
    requires !q.HashPath?
    ensures Render(q) == q.tenant + (":" + BuildKey(Parts(q)[1..]))
  {
  }

  /** Keys of one tenant in different families differ, whatever its id. */
  lemma FamiliesApart(p: Path, q: Path)
    requires !p.HashPath? && !q.HashPath? && p.tenant == q.tenant && Render(p) == Render(q)
    ensures SameFamily(p, q)
  {
    KeyOf(p);
    KeyOf(q);
    SameTails(p.tenant, BuildKey(Parts(p)[1..]), BuildKey(Parts(q)[1..]));
    CutOfFamily(p);
    CutOfFamily(q);
    hide Render, BuildKey, SameFamily;
    FamilyWordsDiffer(p, q);
  }

  lemma SameTails(t: string, a: string, b: string)
    requires t + (":" + a) == t + (":" + b)
    ensures a == b
  {
    assert (t + (":" + a))[|t| + 1..] == a && (t + (":" + b))[|t| + 1..] == b;
  }

  lemma FlagsApart(t: string, j: string, k: string)
    requires j != k
    ensures Render(FlagPath(t, j)) != Render(FlagPath(t, k))
  {
    FlagKeyIs(t, j);
    FlagKeyIs(t, k);
    hide Render;
    if Render(FlagPath(t, j)) == Render(FlagPath(t, k)) {
      SameTails(t, "flags" + (":" + j), "flags" + (":" + k));
      SameTails("flags", j, k);
    }
  }

  lemma ApiKeysApart(t: string, j: string, k: string)
    requires j != k
    ensures Render(ApiKeyPath(t, j)) != Render(ApiKeyPath(t, k))
  {
    ApiKeyKeyIs(t, j);
    ApiKeyKeyIs(t, k);
    hide Render;
    if Render(ApiKeyPath(t, j)) == Render(ApiKeyPath(t, k)) {
      SameTails(t, "apikeys" + (":" + j), "apikeys" + (":" + k));
      SameTails("apikeys", j, k);
    }
  }

  lemma ApiKeyKeyIs(t: string, k: string)
    ensures Render(ApiKeyPath(t, k)) == t + (":" + ("apikeys" + (":" + k)))
  {
    RenderThree(t, "apikeys", k);
  }

  lemma ExperimentKeyIs(t: string, k: string)
    ensures Render(ExperimentPath(t, k)) == t + (":" + ("experiments" + (":" + k)))
  {
    RenderThree(t, "experiments", k);
  }

  lemma ExperimentsApart(t: string, j: string, k: string)
    requires j != k
    ensures Render(ExperimentPath(t, j)) != Render(ExperimentPath(t, k))
  {
    ExperimentKeyIs(t, j);
    ExperimentKeyIs(t, k);
    hide Render;
    if Render(ExperimentPath(t, j)) == Render(ExperimentPath(t, k)) {
      SameTails(t, "experiments" + (":" + j), "experiments" + (":" + k));
      SameTails("experiments", j, k);
    }
  }

  /** Two tenants that share a key of a family share it through the name of that family. */
  lemma FamilyExtends(p: Path, q: Path)
    requires !p.HashPath? && !q.HashPath? && p.tenant != q.tenant && Parts(p)[1] == Parts(q)[1]
    requires Render(p) == Render(q)
    ensures ExtendsBy(p.tenant, q.tenant, Parts(p)[1]) || ExtendsBy(q.tenant, p.tenant, Parts(p)[1])
  {
    hide Render, ExtendsBy;
    if |p.tenant| <= |q.tenant| {
      CollisionExtendsBy(p, q);
    } else {
      CollisionExtendsBy(q, p);
    }
  }

  /** A key under the root r is written only by r itself, by the tenants under it, and by those that it extends. */
  lemma WritersUnder(q: Path, r: string, id: string)
    requires !q.HashPath? && Render(q) == r + (":" + id)
    ensures q.tenant == r || Extends(q.tenant, r) || Under(q.tenant, r)
  {
    var u, tail := q.tenant, BuildKey(Parts(q)[1..]);
    KeyOf(q);
    if |r| < |u| {
      PrefixContinues(r, id, u, tail);
    } else if u != r {
      PrefixContinues(u, tail, r, id);
      var w := r[|u| + 1..];
      CutOfAppended(w, id);
      CutOfFamily(q);
      LongPathsAreRecords(q);
    }
  }

  lemma LongPathsAreRecords(q: Path)
    requires !q.HashPath?
    ensures |Parts(q)| > 2 ==> IsRecordFamily(Parts(q)[1])
  {
  }

  /** The key of a hash is no tenant's, except that of a tenant among the hashes. */
  lemma HashKeysApart(q: Path, h: string)
    requires !q.HashPath? && Render(q) == Render(HashPath(h))
    ensures InHashSpace(q.tenant)
  {
    KeyOf(q);
    CutOfRender(HashPath(h));
    CutOfAppended(q.tenant, BuildKey(Parts(q)[1..]));
  }

  lemma TenantKeysApart(p: Path, q: Path)
    requires !p.HashPath? && !q.HashPath? && p.tenant != q.tenant && Render(p) == Render(q)
    ensures Extends(p.tenant, q.tenant) || Extends(q.tenant, p.tenant)
  {
    hide Render, Extends;
    if |p.tenant| <= |q.tenant| {
      CollisionExtends(p, q);
    } else {
      CollisionExtends(q, p);
    }
  }

  /** The key at which the API key id of tenant t is looked up by hash. */
  function LookupKey(t: string, id: string): string {
    var cut := Cut(BuildKey([t, id]));
    Render(ApiKeyPath(cut.before, cut.after))
  }

  lemma LookupKeyIs(t: string, id: string)
    ensures Cut(BuildKey([t, id])).found
    ensures LookupKey(t, id) == if Cut(t).found then LookupRoot(t) + (":" + id) else Render(ApiKeyPath(t, id))
  {
    assert BuildKey([t, id]) == t + (":" + id);
    CutOfJoin(t, id);
    if Cut(t).found {
      var s, rest := Cut(t).before, Cut(t).after;
      RenderThree(s, "apikeys", rest + (":" + id));
      hide BuildKey;
      Regroup(s, "apikeys", rest, id);
    }
  }

  lemma LookupKeyApartFromHashes(t: string, id: string, h: string)
    requires LookupKey(t, id) == Render(HashPath(h))
    ensures InHashSpace(t)
  {
    LookupKeyIs(t, id);
    CutOfJoin(t, id);
    assert BuildKey([t, id]) == t + (":" + id);
    var cut := Cut(BuildKey([t, id]));
    HashKeysApart(ApiKeyPath(cut.before, cut.after), h);
    hide Render, BuildKey;
    CutHasNoColon(t);
    CutAtNothing(Cut(t).before, ':');
  }

  lemma {:induction false} CutHasNoColon(s: string)
    ensures NoColon(Cut(s).before)
    decreases |s|
  {
    if s != "" && s[0] != ':' {
      CutHasNoColon(s[1..]);
      assert Cut(s).before == [s[0]] + Cut(s[1..]).before;
    }
  }
}
