/** The flat key space of the Redis store: typed paths and the strings they are joined into. */
module Keys {
  import opened Strings

  /** strings.Join(parts, ":") */
  function BuildKey(parts: seq<string>): string {
    if parts == [] then ""
    else if |parts| == 1 then parts[0]
    else parts[0] + (":" + BuildKey(parts[1..]))
  }

  /** What a key of the store stands for. */
  datatype Path =
    | FlagPath(tenant: string, key: string)
    | FlagKeys(tenant: string)
    | ExperimentPath(tenant: string, key: string)
    | ExperimentKeys(tenant: string)
    | AssignmentPath(tenant: string, subject: string, flag: string)
    | ApiKeyPath(tenant: string, id: string)
    | ApiKeyIds(tenant: string)
    | HashPath(hash: string)

  function Parts(p: Path): (parts: seq<string>)
    ensures 2 <= |parts| <= 4
  {
    match p
    case FlagPath(t, k) => [t, "flags", k]
    case FlagKeys(t) => [t, "flag_keys"]
    case ExperimentPath(t, k) => [t, "experiments", k]
    case ExperimentKeys(t) => [t, "experiment_keys"]
    case AssignmentPath(t, s, f) => [t, "assignments", s, f]
    case ApiKeyPath(t, id) => [t, "apikeys", id]
    case ApiKeyIds(t) => [t, "apikey_ids"]
    case HashPath(h) => ["apikey_by_hash", h]
  }

  function Render(p: Path): string {
    BuildKey(Parts(p))
  }

  predicate NoColon(s: string) {
    Lacks(s, ':')
  }

  /** A tenant id that keeps the key space unambiguous. */
  predicate PlainTenant(t: string) {
    NoColon(t) && t != "apikey_by_hash"
  }

  predicate Plain(p: Path) {
    (p.HashPath? || PlainTenant(p.tenant)) && (p.AssignmentPath? ==> NoColon(p.subject))
  }

  // ---- Taking keys apart ----

  function Cut(s: string): CutResult {
    CutAt(s, ':')
  }

  /** Cut undoes the join of two parts when the first has no colon. */
  lemma CutUndoesJoin(a: string, b: string)
    requires NoColon(a)
    ensures Cut(a + (":" + b)) == CutResult(a, b, true)
  {
    CutAtJoin(a, ':', b);
  }

  /** What is left of the key after its first part. */
  lemma CutOfRender(p: Path)
    requires p.HashPath? || NoColon(p.tenant)
    ensures Cut(Render(p)) == CutResult(Parts(p)[0], BuildKey(Parts(p)[1..]), true)
  {
    assert NoColon("apikey_by_hash");
    CutUndoesJoin(Parts(p)[0], BuildKey(Parts(p)[1..]));
  }

  /** The family of the path, and what follows it in the key. */
  lemma CutOfFamily(p: Path)
    requires !p.HashPath?
    ensures Cut(BuildKey(Parts(p)[1..])) ==
            CutResult(Parts(p)[1], BuildKey(Parts(p)[2..]), |Parts(p)| > 2)
  {
    var tail := Parts(p)[1..];
    assert tail[1..] == Parts(p)[2..];
    if |tail| == 1 {
      CutAtNothing(tail[0], ':');
    } else {
      CutUndoesJoin(tail[0], BuildKey(tail[1..]));
    }
  }

  predicate SameFamily(p: Path, q: Path) {
    match p
    case FlagPath(_, _) => q.FlagPath?
    case FlagKeys(_) => q.FlagKeys?
    case ExperimentPath(_, _) => q.ExperimentPath?
    case ExperimentKeys(_) => q.ExperimentKeys?
    case AssignmentPath(_, _, _) => q.AssignmentPath?
    case ApiKeyPath(_, _) => q.ApiKeyPath?
    case ApiKeyIds(_) => q.ApiKeyIds?
    case HashPath(_) => q.HashPath?
  }

  lemma FamilyWordsDiffer(p: Path, q: Path)
    requires !p.HashPath? && !q.HashPath? && Parts(p)[1] == Parts(q)[1]
    ensures SameFamily(p, q)
  {
    assert "flags"[4] != "flag_keys"[4];
    assert |"experiments"| == |"assignments"| == 11 && "experiments"[0] != "assignments"[0];
  }

  /** The key families are pairwise disjoint and each is injective. */
  lemma RenderIsInjective(p: Path, q: Path)
    requires Plain(p) && Plain(q) && Render(p) == Render(q)
    ensures p == q
  {
    CutOfRender(p);
    CutOfRender(q);
    if !p.HashPath? && !q.HashPath? {
      CutOfFamily(p);
      CutOfFamily(q);
      FamilyWordsDiffer(p, q);
      if p.AssignmentPath? {
        CutUndoesJoin(p.subject, p.flag);
        CutUndoesJoin(q.subject, q.flag);
      }
    }
  }

  // ---- Tenants whose ids do contain colons ----

  predicate IsRecordFamily(word: string) {
    word == "flags" || word == "experiments" || word == "assignments" || word == "apikeys"
  }

  /** The id u is t, a colon, and the word, alone or followed by a colon and more. */
  predicate ExtendsBy(t: string, u: string, word: string) {
    |t| < |u| && u[..|t|] == t && u[|t|] == ':' && Cut(u[|t| + 1..]).before == word
  }

  /** The id u is t, a colon, and a record family, alone or followed by a colon and more. */
  predicate Extends(t: string, u: string) {
    |t| < |u| && u[..|t|] == t && u[|t|] == ':' && IsRecordFamily(Cut(u[|t| + 1..]).before)
  }

  lemma {:induction false} CutOfAppended(w: string, x: string)
    ensures Cut(w + (":" + x)).before == Cut(w).before && Cut(w + (":" + x)).found
    decreases |w|
  {
    var s := w + (":" + x);
    if w == "" {
      assert s == ":" + x;
    } else if w[0] != ':' {
      assert s[1..] == w[1..] + (":" + x);
      CutOfAppended(w[1..], x);
    }
  }

  lemma {:induction false} JoinUndoesCut(s: string)
    ensures s == if Cut(s).found then Cut(s).before + (":" + Cut(s).after) else Cut(s).before
    decreases |s|
  {
    if s != "" && s[0] != ':' {
      JoinUndoesCut(s[1..]);
      assert s == [s[0]] + s[1..];
    }
  }

  /** The longer of two prefixes of one text continues the shorter one. */
  lemma PrefixContinues(t: string, r: string, u: string, s: string)
    requires t + (":" + r) == u + (":" + s) && t != u && |t| <= |u|
    ensures |t| < |u| && u[..|t|] == t && u[|t|] == ':'
    ensures r == u[|t| + 1..] + (":" + s)
  {
    var a, b := t + (":" + r), u + (":" + s);
    assert a[..|t|] == t && b[..|u|] == u;
    assert b[..|t|] == u[..|t|];
    assert a[..|u|] == u;
    assert a[|t|] == ':';
    assert a[|t| + 1..] == r;
    assert b[|t| + 1..] == u[|t| + 1..] + (":" + s);
  }

  lemma CollisionExtendsBy(p: Path, q: Path)
    requires !p.HashPath? && !q.HashPath? && p.tenant != q.tenant
    requires Render(p) == Render(q) && |p.tenant| <= |q.tenant|
    ensures ExtendsBy(p.tenant, q.tenant, Parts(p)[1]) && |Parts(p)| > 2
  {
    var t, u := p.tenant, q.tenant;
    var r, s := BuildKey(Parts(p)[1..]), BuildKey(Parts(q)[1..]);
    assert Render(p) == t + (":" + r) && Render(q) == u + (":" + s);
    PrefixContinues(t, r, u, s);
    CutOfAppended(u[|t| + 1..], s);
    CutOfFamily(p);
  }

  lemma CollisionExtends(p: Path, q: Path)
    requires !p.HashPath? && !q.HashPath? && p.tenant != q.tenant
    requires Render(p) == Render(q) && |p.tenant| <= |q.tenant|
    ensures Extends(p.tenant, q.tenant)
  {
    CollisionExtendsBy(p, q);
  }

  lemma RenderThree(a: string, b: string, c: string)
    ensures BuildKey([a, b, c]) == a + (":" + (b + (":" + c)))
  {
    assert [a, b, c][1..] == [b, c] && [b, c][1..] == [c];
    assert BuildKey([b, c]) == b + (":" + c);
  }

  /** The path of family word under tenant t whose key is t:word:rest. */
  lemma PathOf(t: string, word: string, rest: string) returns (p: Path)
    requires IsRecordFamily(word) && Cut(rest).found
    ensures (p.FlagPath? || p.ExperimentPath? || p.AssignmentPath? || p.ApiKeyPath?) && p.tenant == t
    ensures Render(p) == t + (":" + (word + (":" + rest)))
  {
    RenderThree(t, word, rest);
    if word == "flags" {
      p := FlagPath(t, rest);
    } else if word == "experiments" {
      p := ExperimentPath(t, rest);
    } else if word == "apikeys" {
      p := ApiKeyPath(t, rest);
    } else {
      var c := Cut(rest);
      JoinUndoesCut(rest);
      p := AssignmentPath(t, c.before, c.after);
      assert Parts(p)[1..] == [word, c.before, c.after];
      RenderThree(word, c.before, c.after);
    }
  }

  /** The joined text, with the word and the colons around it as one text. */
  lemma Joined(a: string, word: string, b: string, between: string)
    requires between == ":" + word + ":"
    ensures BuildKey([a, word, b]) == a + between + b
  {
    RenderThree(a, word, b);
  }

  lemma JoinedFour(a: string, word: string, b: string, c: string, between: string)
    requires between == ":" + word + ":"
    ensures BuildKey([a, word, b, c]) == a + between + b + ":" + c
  {
    RenderThree(word, b, c);
    assert [a, word, b, c][1..] == [word, b, c];
  }

  lemma JoinedTwo(a: string, word: string, tail: string)
    requires tail == ":" + word
    ensures BuildKey([a, word]) == a + tail
  {
    assert [a, word][1..] == [word];
  }

  /** The keys of the store, letter by letter. */
  lemma KeyText(p: Path)
    ensures match p
            case FlagPath(t, k) => Render(p) == t + ":flags:" + k
            case FlagKeys(t) => Render(p) == t + ":flag_keys"
            case ExperimentPath(t, k) => Render(p) == t + ":experiments:" + k
            case ExperimentKeys(t) => Render(p) == t + ":experiment_keys"
            case AssignmentPath(t, s, f) => Render(p) == t + ":assignments:" + s + ":" + f
            case ApiKeyPath(t, id) => Render(p) == t + ":apikeys:" + id
            case ApiKeyIds(t) => Render(p) == t + ":apikey_ids"
            case HashPath(h) => Render(p) == "apikey_by_hash:" + h
  {
    hide BuildKey;
    match p
    case FlagPath(t, k) => Joined(t, "flags", k, ":flags:");
    case FlagKeys(t) => JoinedTwo(t, "flag_keys", ":flag_keys");
    case ExperimentPath(t, k) => Joined(t, "experiments", k, ":experiments:");
    case ExperimentKeys(t) => JoinedTwo(t, "experiment_keys", ":experiment_keys");
    case AssignmentPath(t, s, f) => JoinedFour(t, "assignments", s, f, ":assignments:");
    case ApiKeyPath(t, id) => Joined(t, "apikeys", id, ":apikeys:");
    case ApiKeyIds(t) => JoinedTwo(t, "apikey_ids", ":apikey_ids");
    case HashPath(h) => JoinedTwo("apikey_by_hash", h, ":" + h);
  }

  lemma FlagKeyIs(t: string, k: string)
    ensures Render(FlagPath(t, k)) == t + (":" + ("flags" + (":" + k)))
  {
    RenderThree(t, "flags", k);
  }

  lemma ExtensionCollides(t: string, u: string) returns (p: Path, q: Path)
    requires Extends(t, u)
    ensures (p.FlagPath? || p.ExperimentPath? || p.AssignmentPath? || p.ApiKeyPath?) && q.FlagPath?
    ensures p.tenant == t && q.tenant == u && Render(p) == Render(q)
  {
    hide Render;
    var w := u[|t| + 1..];
    var c := Cut(w);
    var tail := "flags" + (":" + "k");
    q := FlagPath(u, "k");
    FlagKeyIs(u, "k");
    JoinUndoesCut(w);
    var rest := if c.found then c.after + (":" + tail) else tail;
    CutOfAppended(if c.found then c.after else "flags", if c.found then tail else "k");
    p := PathOf(t, c.before, rest);
    assert u == t + (":" + w);
    if c.found {
      Regroup(t, c.before, c.after, tail);
    } else {
      Regroup2(t, w, tail);
    }
  }

  lemma Regroup(t: string, a: string, b: string, c: string)
    ensures (t + (":" + (a + (":" + b)))) + (":" + c) == t + (":" + (a + (":" + (b + (":" + c)))))
  {
    Regroup2(a, b, c);
    Regroup2(t, a + (":" + b), c);
  }

  lemma Regroup2(t: string, a: string, c: string)
    ensures (t + (":" + a)) + (":" + c) == t + (":" + (a + (":" + c)))
  {
  }

  /** A key of tenant t and a key of tenant u are one and the same string. */
  predicate Collide(t: string, p: Path, u: string, q: Path) {
    !p.HashPath? && !q.HashPath? && p.tenant == t && q.tenant == u && Render(p) == Render(q)
  }

  /**
   * Keys of two different tenants can coincide exactly when one tenant's id is
   * the other's followed by a colon and the name of a record family.
   */
  lemma TenantsCollideExactlyWhen(t: string, u: string)
    requires t != u
    ensures (exists p: Path, q: Path :: Collide(t, p, u, q)) <==> Extends(t, u) || Extends(u, t)
  {
    hide Render, Extends;
    if p: Path, q: Path :| Collide(t, p, u, q) {
      if |t| <= |u| {
        CollisionExtends(p, q);
      } else {
        CollisionExtends(q, p);
      }
    }
    if Extends(t, u) {
      var p, q := ExtensionCollides(t, u);
      assert Collide(t, p, u, q);
    }
    if Extends(u, t) {
      var q, p := ExtensionCollides(u, t);
      assert Collide(t, p, u, q);
    }
  }
}
