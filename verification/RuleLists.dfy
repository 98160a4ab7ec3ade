/** Edits of a rule list that keep or change its meaning, and how buckets divide among the rules. */
module RuleLists {
  import opened Records
  import opened Rules

  // ---- Dead rules ----

  function Remove(flag: FlagDefinition, i: nat): FlagDefinition
    requires i < |flag.rules|
  {
    flag.(rules := flag.rules[..i] + flag.rules[i + 1..])
  }

  /** Everyone whom rule b could serve is served by rule a already. */
  predicate Covers(a: Rule, b: Rule) {
    && b.rolloutPercentage <= a.rolloutPercentage
    && forall c <- a.conditions :: c in b.conditions
  }

  lemma CoveringRuleFires(lib: Library, flag: FlagDefinition, ctx: EvaluationContext, draws: Draws, a: nat, b: nat)
    requires a < |flag.rules| && b < |flag.rules| && flag.semantics != SEMANTICS_RANDOM
    requires Covers(flag.rules[a], flag.rules[b]) && Fires(lib, flag, ctx, draws, b)
    ensures Fires(lib, flag, ctx, draws, a)
  {
    hide EvaluateCondition;
    var ca, cb := flag.rules[a].conditions, flag.rules[b].conditions;
    forall i | 0 <= i < |ca|
      ensures EvaluateCondition(lib, ca[i], ctx)
    {
      assert ca[i] in cb;
      var j :| 0 <= j < |cb| && cb[j] == ca[i];
    }
  }

  /** Removing a rule shifts the later ones down by one and changes none of them. */
  lemma RemovedFires(lib: Library, flag: FlagDefinition, ctx: EvaluationContext, draws: Draws, i: nat, j: nat)
    requires i < |flag.rules| && j < |flag.rules| && j != i && flag.semantics != SEMANTICS_RANDOM
    ensures var k := if j < i then j else j - 1;
            && Remove(flag, i).rules[k] == flag.rules[j]
            && (Fires(lib, Remove(flag, i), ctx, draws, k) <==> Fires(lib, flag, ctx, draws, j))
  {
    hide AllConditionsMatch, InRollout;
  }

  /**
   * Dead-rule elimination: deleting a rule that an earlier rule covers never
   * changes an evaluation, for any context.
   */
  lemma DeadRuleElimination(lib: Library, flag: FlagDefinition, ctx: EvaluationContext, draws: Draws, a: nat, b: nat)
    requires a < b < |flag.rules| && flag.semantics != SEMANTICS_RANDOM
    requires Covers(flag.rules[a], flag.rules[b])
    ensures EvaluateRules(lib, Remove(flag, b), ctx, draws) == EvaluateRules(lib, flag, ctx, draws)
  {
    hide Fires, Covers;
    var shorter := Remove(flag, b);
    var f := FirstFiring(lib, flag, ctx, draws, 0);
    assert f != b by {
      if f == b {
        CoveringRuleFires(lib, flag, ctx, draws, a, b);
      }
    }
    var k := if f < b then f else f - 1;
    if f < |flag.rules| {
      RemovedFires(lib, flag, ctx, draws, b, f);
    }
    forall j | 0 <= j < k
      ensures !Fires(lib, shorter, ctx, draws, j)
    {
      RemovedFires(lib, flag, ctx, draws, b, if j < b then j else j + 1);
    }
    FirstIsUnique(lib, shorter, ctx, draws, k);
  }

  // ---- Deleting a rule of a random flag ----

  /** The draws with that of rule b left out: every other rule keeps its own when rule b is deleted. */
  function Without(draws: Draws, b: nat): Draws {
    (j: nat) => if j < b then draws(j) else draws(j + 1)
  }

  lemma RemovedAt(flag: FlagDefinition, b: nat, j: nat)
    requires b < |flag.rules| && j < |flag.rules| && j != b
    ensures var shorter := Remove(flag, b);
            && |shorter.rules| == |flag.rules| - 1 && shorter.rules[if j < b then j else j - 1] == flag.rules[j]
            && shorter.key == flag.key && shorter.semantics == flag.semantics
  {
  }

  /** With every rule keeping its draw, deletion leaves the other rules firing as they did. */
  lemma OthersFireAlike(lib: Library, flag: FlagDefinition, ctx: EvaluationContext, draws: Draws, b: nat, j: nat)
    requires b < |flag.rules| && j < |flag.rules| && j != b
    ensures var k := if j < b then j else j - 1;
            && Remove(flag, b).rules[k] == flag.rules[j]
            && (Fires(lib, Remove(flag, b), ctx, Without(draws, b), k) <==> Fires(lib, flag, ctx, draws, j))
  {
    RemovedAt(flag, b, j);
    hide Remove, AllConditionsMatch, InRollout;
  }

  /** After deletion the same rule decides as before, or the next one that fires when it was the deleted rule. */
  lemma NextRuleDecides(lib: Library, flag: FlagDefinition, ctx: EvaluationContext, draws: Draws, b: nat)
    requires b < |flag.rules|
    ensures var f := FirstFiring(lib, flag, ctx, draws, 0);
            EvaluateRules(lib, Remove(flag, b), ctx, Without(draws, b)) ==
            Answer(flag, ctx, if f == b then FirstFiring(lib, flag, ctx, draws, b + 1) else f)
  {
    hide Fires;
    var f := FirstFiring(lib, flag, ctx, draws, 0);
    var g := if f == b then FirstFiring(lib, flag, ctx, draws, b + 1) else f;
    var k := if g < b then g else g - 1;
    if g < |flag.rules| {
      OthersFireAlike(lib, flag, ctx, draws, b, g);
    }
    forall j | 0 <= j < k
      ensures !Fires(lib, Remove(flag, b), ctx, Without(draws, b), j)
    {
      var i := if j < b then j else j + 1;
      OthersFireAlike(lib, flag, ctx, draws, b, i);
      assert !Fires(lib, flag, ctx, draws, i);
    }
    FirstIsUnique(lib, Remove(flag, b), ctx, Without(draws, b), k);
  }

  predicate Matches(lib: Library, flag: FlagDefinition, ctx: EvaluationContext, j: nat)
    requires j < |flag.rules|
  {
    AllConditionsMatch(lib, flag.rules[j].conditions, ctx)
  }

  /** Rule k, or the default for k == |rules|, is open to be drawn after all rules from i on are passed over. */
  predicate Open(lib: Library, flag: FlagDefinition, ctx: EvaluationContext, i: nat, k: nat)
    requires i <= k <= |flag.rules|
  {
    && (k < |flag.rules| ==> Matches(lib, flag, ctx, k) && flag.rules[k].rolloutPercentage > 0)
    && forall j :: i <= j < k && Matches(lib, flag, ctx, j) ==> flag.rules[j].rolloutPercentage < 100
  }

  /** Whatever is drawn, only an open rule decides. */
  lemma OnlyOpenDecides(lib: Library, flag: FlagDefinition, ctx: EvaluationContext, draws: Draws, i: nat)
    requires i <= |flag.rules| && flag.semantics == SEMANTICS_RANDOM
    ensures Open(lib, flag, ctx, i, FirstFiring(lib, flag, ctx, draws, i))
  {
    hide AllConditionsMatch;
    var f := FirstFiring(lib, flag, ctx, draws, i);
    forall j | i <= j < f && Matches(lib, flag, ctx, j)
      ensures flag.rules[j].rolloutPercentage < 100
    {
      assert !Fires(lib, flag, ctx, draws, j);
    }
  }

  /** Draws that let rule b win and, once it is gone, rule k. */
  function Favouring(b: nat, k: nat): Draws {
    (j: nat) => if j == b || j == k then 0 else 99
  }

  lemma FavouredDecides(lib: Library, flag: FlagDefinition, ctx: EvaluationContext, b: nat, k: nat, i: nat, n: nat)
    requires i <= n <= |flag.rules| && (n == b || n == k) && flag.semantics == SEMANTICS_RANDOM
    requires i <= b ==> n <= b
    requires i <= k ==> n <= k
    requires Open(lib, flag, ctx, i, n)
    ensures FirstFiring(lib, flag, ctx, Favouring(b, k), i) == n
  {
    hide AllConditionsMatch;
    FirstFromIsUnique(lib, flag, ctx, Favouring(b, k), i, n);
  }

  /**
   * Some draws let rule b of a random flag decide exactly when its conditions match,
   * its percentage is positive, and no earlier matching rule takes everybody.
   */
  lemma CanBeDrawnExactlyWhen(lib: Library, flag: FlagDefinition, ctx: EvaluationContext, b: nat)
    requires b <= |flag.rules| && flag.semantics == SEMANTICS_RANDOM
    ensures (exists draws: Draws :: FirstFiring(lib, flag, ctx, draws, 0) == b) <==> Open(lib, flag, ctx, 0, b)
  {
    hide Open, FirstFiring;
    if Open(lib, flag, ctx, 0, b) {
      FavouredDecides(lib, flag, ctx, b, b, 0, b);
    } else {
      forall draws: Draws
        ensures FirstFiring(lib, flag, ctx, draws, 0) != b
      {
        OnlyOpenDecides(lib, flag, ctx, draws, 0);
      }
    }
  }

  /** Rule b can be drawn, and so, once b is gone, can something later that answers differently. */
  predicate MattersTo(lib: Library, flag: FlagDefinition, ctx: EvaluationContext, b: nat)
    requires b < |flag.rules|
  {
    && Open(lib, flag, ctx, 0, b)
    && exists k :: b < k <= |flag.rules| && Open(lib, flag, ctx, b + 1, k)
                   && Answer(flag, ctx, k) != Answer(flag, ctx, b)
  }

  predicate SameWithout(lib: Library, flag: FlagDefinition, ctx: EvaluationContext, b: nat, draws: Draws)
    requires b < |flag.rules|
  {
    EvaluateRules(lib, Remove(flag, b), ctx, Without(draws, b)) == EvaluateRules(lib, flag, ctx, draws)
  }

  /**
   * Exactly when a rule of a random flag is dead: deleting rule b changes some
   * answer of the subject if and only if b can be drawn and a later rule with
   * another answer, or the default, can be drawn in its place. That an earlier
   * rule covers b does not matter.
   */
  lemma RandomDeletionMattersExactlyWhen(lib: Library, flag: FlagDefinition, ctx: EvaluationContext, b: nat)
    requires b < |flag.rules| && flag.semantics == SEMANTICS_RANDOM
    ensures (exists draws: Draws :: !SameWithout(lib, flag, ctx, b, draws)) <==> MattersTo(lib, flag, ctx, b)
  {
    hide Open, FirstFiring, Answer;
    if MattersTo(lib, flag, ctx, b) {
      var k :| b < k <= |flag.rules| && Open(lib, flag, ctx, b + 1, k) && Answer(flag, ctx, k) != Answer(flag, ctx, b);
      FavouredDecides(lib, flag, ctx, b, k, 0, b);
      FavouredDecides(lib, flag, ctx, b, k, b + 1, k);
      NextRuleDecides(lib, flag, ctx, Favouring(b, k), b);
      assert !SameWithout(lib, flag, ctx, b, Favouring(b, k));
    } else {
      forall draws: Draws
        ensures SameWithout(lib, flag, ctx, b, draws)
      {
        NextRuleDecides(lib, flag, ctx, draws, b);
        OnlyOpenDecides(lib, flag, ctx, draws, 0);
        OnlyOpenDecides(lib, flag, ctx, draws, b + 1);
      }
    }
  }

  /** Two equal rules of a random flag: the first covers the second, and yet the second matters. */
  lemma CoveredRuleOfRandomFlagMatters(lib: Library, flag: FlagDefinition, ctx: EvaluationContext)
    requires flag.semantics == SEMANTICS_RANDOM
    requires flag.rules == [Rule([], 50, "a"), Rule([], 50, "a")]
    ensures Covers(flag.rules[0], flag.rules[1])
    ensures exists draws: Draws :: !SameWithout(lib, flag, ctx, 1, draws)
  {
    assert Open(lib, flag, ctx, 1 + 1, 2) && Answer(flag, ctx, 2).reason == Default;
    assert Answer(flag, ctx, 2) != Answer(flag, ctx, 1);
    assert MattersTo(lib, flag, ctx, 1);
    RandomDeletionMattersExactlyWhen(lib, flag, ctx, 1);
  }

  // ---- Ramp-up ----

  function SetPercentage(flag: FlagDefinition, i: nat, percentage: int): FlagDefinition
    requires i < |flag.rules|
  {
    flag.(rules := flag.rules[i := flag.rules[i].(rolloutPercentage := percentage)])
  }

  /** The subjects that raising rule i from p to q moves. */
  predicate Moved(lib: Library, flag: FlagDefinition, ctx: EvaluationContext, draws: Draws, i: nat, q: int)
    requires i < |flag.rules|
  {
    && Clamp(flag.rules[i].rolloutPercentage) <= Bucket(lib, ctx.tenantId, flag.key, ctx.subjectId) < Clamp(q)
    && AllConditionsMatch(lib, flag.rules[i].conditions, ctx)
    && forall j :: 0 <= j < i ==> !Fires(lib, flag, ctx, draws, j)
  }

  lemma RaisedFires(lib: Library, flag: FlagDefinition, ctx: EvaluationContext, draws: Draws, i: nat, q: int, j: nat)
    requires i < |flag.rules| && j < |flag.rules| && flag.semantics != SEMANTICS_RANDOM
    ensures var raised := SetPercentage(flag, i, q);
            && (j != i ==> (Fires(lib, raised, ctx, draws, j) <==> Fires(lib, flag, ctx, draws, j)))
            && (j == i ==> (Fires(lib, raised, ctx, draws, j) <==>
                              AllConditionsMatch(lib, flag.rules[i].conditions, ctx)
                              && Bucket(lib, ctx.tenantId, flag.key, ctx.subjectId) < Clamp(q)))
  {
    InRolloutIsThreshold(lib, ctx.tenantId, flag.key, ctx.subjectId, q);
    hide AllConditionsMatch, InRollout, Bucket;
  }

  /**
   * Raising a rule's percentage moves exactly the subjects in the new buckets who
   * match the rule and fire none before it; they all get this rule, and nobody
   * else's answer changes.
   */
  lemma RampUpIsStable(lib: Library, flag: FlagDefinition, ctx: EvaluationContext, draws: Draws, i: nat, q: int)
    requires i < |flag.rules| && flag.semantics != SEMANTICS_RANDOM
    requires flag.rules[i].rolloutPercentage <= q
    ensures var raised := SetPercentage(flag, i, q);
            EvaluateRules(lib, raised, ctx, draws) ==
            if Moved(lib, flag, ctx, draws, i, q) then Answer(flag, ctx, i) else EvaluateRules(lib, flag, ctx, draws)
    ensures Moved(lib, flag, ctx, draws, i, q) ==> FirstFiring(lib, flag, ctx, draws, 0) > i
  {
    var raised := SetPercentage(flag, i, q);
    InRolloutIsThreshold(lib, ctx.tenantId, flag.key, ctx.subjectId, flag.rules[i].rolloutPercentage);
    hide AllConditionsMatch, InRollout, Bucket, Answer;
    var f := FirstFiring(lib, flag, ctx, draws, 0);
    var moved := Moved(lib, flag, ctx, draws, i, q);
    var k := if moved then i else f;
    RaisedFires(lib, flag, ctx, draws, i, q, i);
    if k < |flag.rules| {
      RaisedFires(lib, flag, ctx, draws, i, q, k);
    }
    forall j | 0 <= j < k
      ensures !Fires(lib, raised, ctx, draws, j)
    {
      RaisedFires(lib, flag, ctx, draws, i, q, j);
      assert !Fires(lib, flag, ctx, draws, j);
    }
    FirstIsUnique(lib, raised, ctx, draws, k);
    AnswerIgnoresPercentage(flag, ctx, i, q, k);
  }

  lemma AnswerIgnoresPercentage(flag: FlagDefinition, ctx: EvaluationContext, i: nat, q: int, k: nat)
    requires i < |flag.rules| && k <= |flag.rules|
    ensures Answer(SetPercentage(flag, i, q), ctx, k) == Answer(flag, ctx, k)
  {
  }

  // ---- Bucket conservation ----

  /** The highest threshold among the first i rules. */
  function HighestBefore(rules: seq<Rule>, i: nat): (h: nat)
    requires i <= |rules|
    ensures h <= 100
  {
    if i == 0 then 0
    else
      var h := HighestBefore(rules, i - 1);
      var t := Clamp(rules[i - 1].rolloutPercentage);
      if t > h then t else h
  }

  /** The rule that a bucket reaches when no rule has conditions: the first whose threshold is above it. */
  function RuleOfBucket(rules: seq<Rule>, b: nat): (k: nat)
    ensures k <= |rules|
    ensures k < |rules| ==> b < Clamp(rules[k].rolloutPercentage)
    ensures forall j :: 0 <= j < k ==> b >= Clamp(rules[j].rolloutPercentage)
  {
    RuleOfBucketFrom(rules, b, 0)
  }

  function RuleOfBucketFrom(rules: seq<Rule>, b: nat, i: nat): (k: nat)
    requires i <= |rules|
    ensures i <= k <= |rules|
    ensures k < |rules| ==> b < Clamp(rules[k].rolloutPercentage)
    ensures forall j :: i <= j < k ==> b >= Clamp(rules[j].rolloutPercentage)
    decreases |rules| - i
  {
    if i == |rules| || b < Clamp(rules[i].rolloutPercentage) then i else RuleOfBucketFrom(rules, b, i + 1)
  }

  predicate Unconditional(flag: FlagDefinition) {
    forall i :: 0 <= i < |flag.rules| ==> flag.rules[i].conditions == []
  }

  /** The engine sends a subject to the rule of its bucket. */
  lemma BucketDecides(lib: Library, flag: FlagDefinition, ctx: EvaluationContext, draws: Draws)
    requires Unconditional(flag) && flag.semantics != SEMANTICS_RANDOM
    ensures EvaluateRules(lib, flag, ctx, draws) ==
            Answer(flag, ctx, RuleOfBucket(flag.rules, Bucket(lib, ctx.tenantId, flag.key, ctx.subjectId)))
  {
    var b := Bucket(lib, ctx.tenantId, flag.key, ctx.subjectId);
    hide Bucket, Answer;
    forall j | 0 <= j < |flag.rules|
      ensures Fires(lib, flag, ctx, draws, j) <==> b < Clamp(flag.rules[j].rolloutPercentage)
    {
      InRolloutIsThreshold(lib, ctx.tenantId, flag.key, ctx.subjectId, flag.rules[j].rolloutPercentage);
    }
    hide Fires;
    FirstIsUnique(lib, flag, ctx, draws, RuleOfBucket(flag.rules, b));
  }

  /** The buckets that reach rule k, or the default for k == |rules|. */
  function BucketsOf(rules: seq<Rule>, k: nat): set<int> {
    set b: int | 0 <= b < 100 && RuleOfBucket(rules, b) == k
  }

  lemma {:induction false} BelowHighest(rules: seq<Rule>, i: nat, b: nat)
    requires i <= |rules|
    ensures b < HighestBefore(rules, i) <==> exists j :: 0 <= j < i && b < Clamp(rules[j].rolloutPercentage)
    decreases i
  {
    if i > 0 {
      BelowHighest(rules, i - 1, b);
      if b < Clamp(rules[i - 1].rolloutPercentage) {
        assert exists j :: 0 <= j < i && b < Clamp(rules[j].rolloutPercentage);
      }
    }
  }

  function Interval(lo: int, hi: int): (s: set<int>)
    ensures forall b :: b in s <==> lo <= b < hi
    ensures |s| == if lo <= hi then hi - lo else 0
    decreases hi - lo
  {
    if lo < hi then Interval(lo, hi - 1) + {hi - 1} else {}
  }

  function Max(a: int, b: int): int {
    if a > b then a else b
  }

  /** The upper end of the buckets of rule k. */
  function UpperEnd(rules: seq<Rule>, k: nat): nat
    requires k <= |rules|
  {
    if k < |rules| then Clamp(rules[k].rolloutPercentage) else 100
  }

  lemma BucketsAreInterval(rules: seq<Rule>, k: nat)
    requires k <= |rules|
    ensures BucketsOf(rules, k) == Interval(HighestBefore(rules, k), UpperEnd(rules, k))
  {
    forall b: int | 0 <= b < 100
      ensures RuleOfBucket(rules, b) == k <==> HighestBefore(rules, k) <= b < UpperEnd(rules, k)
    {
      BelowHighest(rules, k, b);
      var r := RuleOfBucket(rules, b);
      if r < k {
        assert b < Clamp(rules[r].rolloutPercentage);
      } else if r > k {
        assert b >= Clamp(rules[k].rolloutPercentage);
      }
    }
  }

  /** Exactly max(0, threshold - highest earlier threshold) of the 100 buckets reach a rule. */
  lemma BucketShare(rules: seq<Rule>, k: nat)
    requires k <= |rules|
    ensures |BucketsOf(rules, k)| == Max(0, UpperEnd(rules, k) - HighestBefore(rules, k))
  {
    BucketsAreInterval(rules, k);
  }

  /** How many buckets the first k rules get together. */
  function SharesBefore(rules: seq<Rule>, k: nat): nat
    requires k <= |rules|
  {
    if k == 0 then 0 else SharesBefore(rules, k - 1) + |BucketsOf(rules, k - 1)|
  }

  lemma {:induction false} SharesAddUp(rules: seq<Rule>, k: nat)
    requires k <= |rules|
    ensures SharesBefore(rules, k) == HighestBefore(rules, k)
    decreases k
  {
    if k > 0 {
      SharesAddUp(rules, k - 1);
      BucketShare(rules, k - 1);
    }
  }

  /** No bucket is lost or counted twice: the shares of all rules and of the default make 100. */
  lemma BucketsAreConserved(rules: seq<Rule>)
    ensures SharesBefore(rules, |rules|) + |BucketsOf(rules, |rules|)| == 100
  {
    SharesAddUp(rules, |rules|);
    BucketShare(rules, |rules|);
  }
}
