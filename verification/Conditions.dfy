/** What each condition asks of a context, operator by operator and path by path. */
module Conditions {
  import opened Options
  import opened Records
  import opened Strings
  import opened Rules
  import Semver

  // ---- What a path reads ----

  /** The path names the value in the context; an empty id or environment is no value. */
  predicate Reads(ctx: EvaluationContext, path: string, v: Any) {
    || (path == "subjectId" && ctx.subjectId != "" && v == Text(ctx.subjectId))
    || (path == "environment" && ctx.environment != "" && v == Text(ctx.environment))
    || (path == "tenantId" && ctx.tenantId != "" && v == Text(ctx.tenantId))
    || exists key: string :: key in ctx.attributes && path == "attributes." + key && v == ctx.attributes[key]
  }

  lemma PathReads(ctx: EvaluationContext, path: string, v: Any)
    ensures ResolveAttribute(path, ctx) == Some(v) <==> Reads(ctx, path, v)
  {
    if key: string :| key in ctx.attributes && path == "attributes." + key {
      assert path[|"attributes."|..] == key && path[10] == '.';
    }
    if HasPrefix(path, ATTRIBUTES_PREFIX) {
      assert path == "attributes." + TrimPrefix(path, ATTRIBUTES_PREFIX);
    }
  }

  /** An absent attribute matches under no operator, negated or not. */
  lemma AbsentMatchesNothing(lib: Library, cond: Condition, ctx: EvaluationContext)
    requires forall v: Any :: !Reads(ctx, cond.attribute, v)
    ensures !EvaluateCondition(lib, cond, ctx)
  {
    hide ResolveAttribute, Reads, Equals, In, Contains, RegexMatch, Semver.Matches;
    match ResolveAttribute(cond.attribute, ctx)
    case None =>
    case Some(v) => PathReads(ctx, cond.attribute, v);
  }

  /** Neither does anything match under an operator that there is not. */
  lemma UnknownOperatorMatchesNothing(lib: Library, cond: Condition, ctx: EvaluationContext)
    requires cond.operator != "equals" && cond.operator != "not_equals"
    requires cond.operator != "in" && cond.operator != "not_in"
    requires cond.operator != "contains" && cond.operator != "starts_with" && cond.operator != "ends_with"
    requires cond.operator != "greater_than" && cond.operator != "less_than"
    requires cond.operator != "regex" && cond.operator != "semver_match"
    ensures !EvaluateCondition(lib, cond, ctx)
  {
    hide ResolveAttribute, Equals, In, Contains, RegexMatch, Semver.Matches;
  }

  // ---- What an operator asks of the value that is read ----

  /** A string is its own text, and any other value has the one that fmt gives it. */
  predicate Shown(lib: Library, v: Any, s: string) {
    if v.Text? then s == v.s else s == lib.sprint(v)
  }

  predicate Holds(lib: Library, path: string, operator: string, value: Any, ctx: EvaluationContext) {
    EvaluateCondition(lib, Condition(path, operator, value), ctx)
  }

  /** equals compares texts, and not_equals is its complement. */
  lemma EqualsMeans(
    lib: Library, path: string, value: Any, ctx: EvaluationContext, v: Any, a: string, b: string)
    requires Reads(ctx, path, v) && Shown(lib, v, a) && Shown(lib, value, b)
    ensures Holds(lib, path, "equals", value, ctx) <==> a == b
    ensures Holds(lib, path, "not_equals", value, ctx) <==> a != b
  {
    PathReads(ctx, path, v);
    hide ResolveAttribute, Reads, In, Contains, RegexMatch, Semver.Matches;
  }

  lemma {:induction false} ContainsMeans(a: string, b: string)
    ensures Contains(a, b) <==> exists before: string, after: string :: a == before + b + after
    decreases |a|
  {
    if b <= a {
      assert a == "" + b + a[|b|..];
    }
    if a != "" {
      ContainsMeans(a[1..], b);
      if before: string, after: string :| a[1..] == before + b + after {
        assert a == ([a[0]] + before) + b + after;
      }
      if before: string, after: string :| a == before + b + after {
        if before == "" {
          assert a[..|b|] == b;
        } else {
          assert a[1..] == before[1..] + b + after;
        }
      }
    }
  }

  lemma EndsMean(a: string, b: string)
    ensures HasPrefix(a, b) <==> exists after: string :: a == b + after
    ensures HasSuffix(a, b) <==> exists before: string :: a == before + b
  {
    if b <= a {
      assert a == b + a[|b|..];
    }
    if HasSuffix(a, b) {
      assert a == a[..|a| - |b|] + b;
    }
    if before: string :| a == before + b {
      assert a[|a| - |b|..] == b;
    }
  }

  /** The value has the part somewhere, in front, or at its end. */
  lemma PartsMean(
    lib: Library, path: string, value: Any, ctx: EvaluationContext, v: Any, a: string, b: string)
    requires Reads(ctx, path, v) && Shown(lib, v, a) && Shown(lib, value, b)
    ensures Holds(lib, path, "contains", value, ctx) <==>
            exists before: string, after: string :: a == before + b + after
    ensures Holds(lib, path, "starts_with", value, ctx) <==> exists after: string :: a == b + after
    ensures Holds(lib, path, "ends_with", value, ctx) <==> exists before: string :: a == before + b
  {
    PathReads(ctx, path, v);
    ContainsMeans(a, b);
    EndsMean(a, b);
    hide ResolveAttribute, Reads, In, Equals, Contains, HasPrefix, HasSuffix, RegexMatch, Semver.Matches;
  }

  /** in holds if and only if some listed item has the text of the value, and not_in is its complement. */
  lemma InMeans(lib: Library, path: string, value: Any, ctx: EvaluationContext, v: Any, a: string)
    requires Reads(ctx, path, v) && Shown(lib, v, a)
    ensures Holds(lib, path, "in", value, ctx) <==>
            value.List? && exists i :: 0 <= i < |value.items| && Shown(lib, value.items[i], a)
    ensures Holds(lib, path, "not_in", value, ctx) <==> !Holds(lib, path, "in", value, ctx)
  {
    PathReads(ctx, path, v);
    hide ResolveAttribute, Reads, Contains, RegexMatch, Semver.Matches;
  }

  /** greater_than and less_than are strict and converse on numbers, and false of anything else. */
  lemma ComparisonsMean(lib: Library, path: string, value: Any, ctx: EvaluationContext, v: Any)
    requires Reads(ctx, path, v)
    ensures Holds(lib, path, "greater_than", value, ctx) <==>
            exists x: real, y: real :: v == Number(x) && value == Number(y) && x > y
    ensures Holds(lib, path, "less_than", value, ctx) <==>
            exists x: real, y: real :: v == Number(x) && value == Number(y) && x < y
  {
    PathReads(ctx, path, v);
    hide ResolveAttribute, Reads, Equals, In, Contains, RegexMatch, Semver.Matches;
  }

  /** regex asks the regexp package, unless the pattern has more than 1024 bytes. */
  lemma RegexMeans(
    lib: Library, path: string, value: Any, ctx: EvaluationContext, v: Any, a: string, b: string)
    requires Reads(ctx, path, v) && Shown(lib, v, a) && Shown(lib, value, b)
    ensures Holds(lib, path, "regex", value, ctx) <==> ByteLength(b) <= 1024 && lib.regex(b, a)
  {
    PathReads(ctx, path, v);
    hide ResolveAttribute, Reads, Equals, In, Contains, ByteLength, Semver.Matches;
  }

  /** The bytes of a text are those of its parts, and a character takes one to four of them. */
  lemma {:induction false} BytesAdd(s: string, t: string)
    ensures ByteLength(s + t) == ByteLength(s) + ByteLength(t)
    ensures |s| <= ByteLength(s) <= 4 * |s|
    ensures (forall c <- s :: c < '\U{0080}') ==> ByteLength(s) == |s|
    ensures |s| == 1 ==>
              && (ByteLength(s) <= 2 <==> s[0] < '\U{0800}')
              && (ByteLength(s) <= 3 <==> s[0] < '\U{010000}')
              && (ByteLength(s) == 1 <==> s[0] < '\U{0080}')
    decreases |s|
  {
    if s == "" {
      assert s + t == t;
    } else {
      assert s[0] in s && (s + t)[0] == s[0];
      assert (s + t)[1..] == s[1..] + t;
      BytesAdd(s[1..], t);
      assert forall c <- s[1..] :: c in s;
    }
  }

  lemma SemverAsked(
    lib: Library, path: string, value: Any, ctx: EvaluationContext, v: Any, a: string, b: string)
    requires Reads(ctx, path, v) && Shown(lib, v, a) && Shown(lib, value, b)
    ensures Holds(lib, path, "semver_match", value, ctx) <==> Semver.Matches(a, b)
  {
    PathReads(ctx, path, v);
    hide ResolveAttribute, Reads, Equals, In, Contains, RegexMatch, Semver.Matches;
  }

  /** The first version comes before the second: its first different number is the smaller one. */
  predicate Older(x: Semver.Written, y: Semver.Written) {
    || x.major < y.major
    || (x.major == y.major && x.minor < y.minor)
    || (x.major == y.major && x.minor == y.minor && x.patch < y.patch)
  }

  /** semver_match compares written versions by their three numbers, as the operator in the constraint says. */
  lemma SemverMeans(
    lib: Library, path: string, value: Any, ctx: EvaluationContext, v: Any,
    x: Semver.Written, op: string, pad: string, y: Semver.Written)
    requires Reads(ctx, path, v) && Semver.WellFormed(x) && Semver.WellFormed(y) && Semver.AllSpace(pad)
    requires Shown(lib, v, Semver.Write(x)) && Shown(lib, value, op + (pad + Semver.Write(y)))
    ensures var holds := Holds(lib, path, "semver_match", value, ctx);
            && (op == "=" ==> (holds <==> x.major == y.major && x.minor == y.minor && x.patch == y.patch))
            && (op == "<" ==> (holds <==> Older(x, y)))
            && (op == ">" ==> (holds <==> Older(y, x)))
            && (op == "<=" ==> (holds <==> !Older(y, x)))
            && (op == ">=" ==> (holds <==> !Older(x, y)))
  {
    hide Holds, Reads, Shown, Semver.Matches, Semver.Write, Semver.AllSpace, Semver.WellFormed;
    SemverAsked(lib, path, value, ctx, v, Semver.Write(x), op + (pad + Semver.Write(y)));
    if Semver.IsOperator(op) {
      Semver.MatchDecidesRelation(x, op, pad, y);
    }
  }

  // ---- Several conditions ----

  /** Conditions are taken together: all of them must match, and none of them always does. */
  lemma ConditionsAreConjoined(
    lib: Library, some: seq<Condition>, cond: Condition, others: seq<Condition>, ctx: EvaluationContext)
    ensures AllConditionsMatch(lib, [], ctx)
    ensures AllConditionsMatch(lib, some + [cond] + others, ctx) <==>
            AllConditionsMatch(lib, some + others, ctx) && EvaluateCondition(lib, cond, ctx)
  {
    hide EvaluateCondition;
    var without, all := some + others, some + [cond] + others;
    var n := |some|;
    assert forall i :: 0 <= i < n ==> all[i] == without[i];
    assert forall i :: n <= i < |without| ==> without[i] == all[i + 1];
    assert all[n] == cond;
    if AllConditionsMatch(lib, without, ctx) && EvaluateCondition(lib, cond, ctx) {
      forall i | 0 <= i < |all|
        ensures EvaluateCondition(lib, all[i], ctx)
      {
        if i > n {
          assert all[i] == without[i - 1];
        } else if i < n {
          assert all[i] == without[i];
        }
      }
    }
  }

  // ---- To an answer ----

  /** A rule that asks for the environment v, and takes every subject in it. */
  function EnvironmentRule(v: string, variant: string): Rule {
    Rule([Condition("environment", "equals", Text(v))], 100, variant)
  }

  lemma EnvironmentMatches(lib: Library, v: string, ctx: EvaluationContext)
    ensures AllConditionsMatch(lib, [Condition("environment", "equals", Text(v))], ctx) <==>
            v != "" && ctx.environment == v
  {
    hide EvaluateCondition;
    var cond := Condition("environment", "equals", Text(v));
    assert AllConditionsMatch(lib, [cond], ctx) <==> EvaluateCondition(lib, [cond][0], ctx);
    if ctx.environment == "" {
      forall w: Any
        ensures !Reads(ctx, "environment", w)
      {
        assert "environment"[0] != "attributes."[0];
      }
      AbsentMatchesNothing(lib, cond, ctx);
    } else {
      EqualsMeans(lib, "environment", Text(v), ctx, Text(ctx.environment), ctx.environment, v);
    }
  }

  /** It decides in that environment and nowhere else, whatever the hash and the draws. */
  lemma EnvironmentRuleDecides(
    lib: Library, flag: FlagDefinition, ctx: EvaluationContext, draws: Draws, v: string, variant: string)
    requires flag.rules == [EnvironmentRule(v, variant)] && v != ""
    ensures var r := EvaluateRules(lib, flag, ctx, draws);
            if ctx.environment == v then r.enabled && r.variant == variant && r.reason == RuleMatch
            else
              && r.enabled == flag.defaultResult.enabled && r.variant == flag.defaultResult.variant
              && r.reason == Default
  {
    EnvironmentMatches(lib, v, ctx);
    hide AllConditionsMatch, Bucket;
    FirstIsUnique(lib, flag, ctx, draws, if ctx.environment == v then 0 else 1);
  }
}
