/** Conditions and rules of a flag, and the bucket of a subject. */
module Rules {
  import opened Options
  import opened Records
  import opened Strings
  import Semver

  /** Calls into libraries: fmt's %v, the regexp package, the 32-bit murmur3 hash. */
  datatype Library = Library(sprint: Any -> string, regex: (string, string) -> bool, hash: string -> nat)

  datatype EvaluationContext = EvaluationContext(
    tenantId: string,
    subjectId: string,
    environment: string,
    attributes: map<string, Any>)

  const ATTRIBUTES_PREFIX := "attributes."
  const MAX_REGEX_PATTERN_LEN := 1024

  /** The value at a dot-path, if the context has one. */
  function ResolveAttribute(path: string, ctx: EvaluationContext): Option<Any> {
    if path == "subjectId" then NonEmpty(ctx.subjectId)
    else if path == "environment" then NonEmpty(ctx.environment)
    else if path == "tenantId" then NonEmpty(ctx.tenantId)
    else if HasPrefix(path, ATTRIBUTES_PREFIX) then
      var key := TrimPrefix(path, ATTRIBUTES_PREFIX);
      if key in ctx.attributes then Some(ctx.attributes[key]) else None
    else None
  }

  function NonEmpty(s: string): Option<Any> {
    if s == "" then None else Some(Text(s))
  }

  function ToString(lib: Library, v: Any): string {
    if v.Text? then v.s else lib.sprint(v)
  }

  predicate Equals(lib: Library, actual: Any, expected: Any) {
    ToString(lib, actual) == ToString(lib, expected)
  }

  predicate In(lib: Library, actual: Any, list: Any) {
    list.List? && exists i :: 0 <= i < |list.items| && Equals(lib, list.items[i], actual)
  }

  /** len(s): the bytes that a string takes in UTF-8. */
  function ByteLength(s: string): nat {
    if s == "" then 0
    else
      var c := s[0] as int;
      (if c < 0x80 then 1 else if c < 0x800 then 2 else if c < 0x1_0000 then 3 else 4) + ByteLength(s[1..])
  }

  predicate RegexMatch(lib: Library, actual: Any, pattern: Any) {
    && ByteLength(ToString(lib, pattern)) <= MAX_REGEX_PATTERN_LEN
    && lib.regex(ToString(lib, pattern), ToString(lib, actual))
  }

  /** One condition; an absent attribute never matches, not even a negated operator. */
  predicate EvaluateCondition(lib: Library, cond: Condition, ctx: EvaluationContext) {
    match ResolveAttribute(cond.attribute, ctx)
    case None => false
    case Some(val) =>
      var a, b := ToString(lib, val), ToString(lib, cond.value);
      if cond.operator == "equals" then Equals(lib, val, cond.value)
      else if cond.operator == "not_equals" then !Equals(lib, val, cond.value)
      else if cond.operator == "in" then In(lib, val, cond.value)
      else if cond.operator == "not_in" then !In(lib, val, cond.value)
      else if cond.operator == "contains" then Contains(a, b)
      else if cond.operator == "starts_with" then HasPrefix(a, b)
      else if cond.operator == "ends_with" then HasSuffix(a, b)
      else if cond.operator == "greater_than" then val.Number? && cond.value.Number? && val.x > cond.value.x
      else if cond.operator == "less_than" then val.Number? && cond.value.Number? && val.x < cond.value.x
      else if cond.operator == "regex" then RegexMatch(lib, val, cond.value)
      else cond.operator == "semver_match" && Semver.Matches(a, b)
  }

  predicate AllConditionsMatch(lib: Library, conditions: seq<Condition>, ctx: EvaluationContext) {
    forall i :: 0 <= i < |conditions| ==> EvaluateCondition(lib, conditions[i], ctx)
  }

  // ---- Buckets ----

  /** The bucket of a subject, from 0 to 99. */
  function Bucket(lib: Library, tenantId: string, flagKey: string, subjectId: string): (b: nat)
    ensures b < 100
  {
    lib.hash(tenantId + ":" + flagKey + ":" + subjectId) % 100
  }

  predicate InRollout(lib: Library, tenantId: string, flagKey: string, subjectId: string, percentage: int) {
    if percentage <= 0 then false
    else if percentage >= 100 then true
    else Bucket(lib, tenantId, flagKey, subjectId) < percentage
  }

  /** A percentage as a threshold on buckets. */
  function Clamp(percentage: int): (t: nat)
    ensures t <= 100
  {
    if percentage <= 0 then 0 else if percentage >= 100 then 100 else percentage
  }

  lemma InRolloutIsThreshold(lib: Library, t: string, f: string, s: string, percentage: int)
    ensures InRollout(lib, t, f, s, percentage) <==> Bucket(lib, t, f, s) < Clamp(percentage)
    ensures InRollout(lib, t, f, s, percentage) <==> Bucket(lib, t, f, s) < percentage
  {
  }

  /** The bucket is the last two decimal digits of the hash of the joined text. */
  lemma BucketIs(lib: Library, t: string, f: string, s: string, q: nat, b: nat)
    requires b < 100 && lib.hash(t + ":" + f + ":" + s) == 100 * q + b
    ensures Bucket(lib, t, f, s) == b
  {
  }

  /** Two subjects share their bucket whatever the hash if and only if their joined texts are one. */
  lemma BucketsAgreeExactlyWhen(t: string, f: string, s: string, t2: string, f2: string, s2: string)
    ensures (forall lib: Library :: Bucket(lib, t, f, s) == Bucket(lib, t2, f2, s2)) <==>
            t + ":" + f + ":" + s == t2 + ":" + f2 + ":" + s2
  {
    var text, text2 := t + ":" + f + ":" + s, t2 + ":" + f2 + ":" + s2;
    if text != text2 {
      var lib := Library(_ => "", (_, _) => false, x => if x == text then 0 else 1);
      BucketIs(lib, t, f, s, 0, 0);
      BucketIs(lib, t2, f2, s2, 0, 1);
      hide Bucket;
      assert Bucket(lib, t, f, s) != Bucket(lib, t2, f2, s2);
    }
  }

  /** Some hash puts the first of two subjects of a flag in a rollout and the second one out of it. */
  lemma SubjectsCanBeSplit(t: string, f: string, s: string, s2: string, percentage: int)
    requires s != s2 && 0 < percentage < 100
    ensures exists lib: Library :: InRollout(lib, t, f, s, percentage) && !InRollout(lib, t, f, s2, percentage)
  {
    var front := t + ":" + f + ":";
    assert (front + s)[|front|..] == s && (front + s2)[|front|..] == s2;
    var lib := Library(_ => "", (_, _) => false, x => if x == front + s then 0 else 99);
    BucketIs(lib, t, f, s, 0, 0);
    BucketIs(lib, t, f, s2, 0, 99);
    assert InRollout(lib, t, f, s, percentage) && !InRollout(lib, t, f, s2, percentage);
  }

  // ---- Rules ----

  datatype Reason =
    | RuleMatch | Default | Persisted | NoPersistence | Disabled | NotFound | Error

  datatype EvaluationResult = EvaluationResult(
    tenantId: string,
    flagKey: string,
    enabled: bool,
    variant: string,
    reason: Reason)

  /** rand.IntN(100), by the index of the rule that asks for it. */
  type Draws = nat -> nat

  predicate SubjectInRollout(lib: Library, flag: FlagDefinition, ctx: EvaluationContext, percentage: int, draw: nat) {
    if flag.semantics == SEMANTICS_RANDOM then
      if percentage <= 0 then false
      else if percentage >= 100 then true
      else draw % 100 < percentage
    else InRollout(lib, ctx.tenantId, flag.key, ctx.subjectId, percentage)
  }

  /** Random flags roll for each evaluation, and all others go by the bucket of the subject. */
  lemma RolloutMeans(lib: Library, flag: FlagDefinition, ctx: EvaluationContext, percentage: int, draw: nat)
    ensures SubjectInRollout(lib, flag, ctx, percentage, draw) <==>
            (if flag.semantics == "random" then draw % 100
             else Bucket(lib, ctx.tenantId, flag.key, ctx.subjectId)) < percentage
  {
    InRolloutIsThreshold(lib, ctx.tenantId, flag.key, ctx.subjectId, percentage);
    hide Bucket;
  }

  predicate Fires(lib: Library, flag: FlagDefinition, ctx: EvaluationContext, draws: Draws, i: nat)
    requires i < |flag.rules|
  {
    && AllConditionsMatch(lib, flag.rules[i].conditions, ctx)
    && SubjectInRollout(lib, flag, ctx, flag.rules[i].rolloutPercentage, draws(i))
  }

  /** The first rule from i on that fires, or the number of rules. */
  function FirstFiring(lib: Library, flag: FlagDefinition, ctx: EvaluationContext, draws: Draws, i: nat): (k: nat)
    requires i <= |flag.rules|
    ensures i <= k <= |flag.rules|
    ensures k < |flag.rules| ==> Fires(lib, flag, ctx, draws, k)
    ensures forall j :: i <= j < k ==> !Fires(lib, flag, ctx, draws, j)
    decreases |flag.rules| - i
  {
    if i == |flag.rules| || Fires(lib, flag, ctx, draws, i) then i else FirstFiring(lib, flag, ctx, draws, i + 1)
  }

  /** What a flag answers when rule k decides, or the default when there is no rule k. */
  function Answer(flag: FlagDefinition, ctx: EvaluationContext, k: nat): EvaluationResult
    requires k <= |flag.rules|
  {
    if k < |flag.rules| then
      EvaluationResult(ctx.tenantId, flag.key, true, flag.rules[k].variant, RuleMatch)
    else
      EvaluationResult(ctx.tenantId, flag.key, flag.defaultResult.enabled, flag.defaultResult.variant, Default)
  }

  function EvaluateRules(lib: Library, flag: FlagDefinition, ctx: EvaluationContext, draws: Draws): EvaluationResult {
    Answer(flag, ctx, FirstFiring(lib, flag, ctx, draws, 0))
  }

  /** The first firing rule from i on is the only one with no firing rule between. */
  lemma FirstFromIsUnique(
    lib: Library, flag: FlagDefinition, ctx: EvaluationContext, draws: Draws, i: nat, k: nat)
    requires i <= k <= |flag.rules|
    requires k < |flag.rules| ==> Fires(lib, flag, ctx, draws, k)
    requires forall j :: i <= j < k ==> !Fires(lib, flag, ctx, draws, j)
    ensures FirstFiring(lib, flag, ctx, draws, i) == k
  {
    var f := FirstFiring(lib, flag, ctx, draws, i);
  }

  lemma FirstIsUnique(lib: Library, flag: FlagDefinition, ctx: EvaluationContext, draws: Draws, k: nat)
    requires k <= |flag.rules|
    requires k < |flag.rules| ==> Fires(lib, flag, ctx, draws, k)
    requires forall j :: 0 <= j < k ==> !Fires(lib, flag, ctx, draws, j)
    ensures FirstFiring(lib, flag, ctx, draws, 0) == k
  {
    FirstFromIsUnique(lib, flag, ctx, draws, 0, k);
  }

  lemma AnswersOwnKey(lib: Library, flag: FlagDefinition, ctx: EvaluationContext, draws: Draws)
    ensures EvaluateRules(lib, flag, ctx, draws).flagKey == flag.key
    ensures EvaluateRules(lib, flag, ctx, draws).reason != Persisted
  {
  }

  /** Only random flags look at the draws. */
  lemma DrawsDoNotMatter(lib: Library, flag: FlagDefinition, ctx: EvaluationContext, d: Draws, e: Draws)
    requires flag.semantics != SEMANTICS_RANDOM
    ensures EvaluateRules(lib, flag, ctx, d) == EvaluateRules(lib, flag, ctx, e)
  {
    hide AllConditionsMatch, InRollout, Answer;
    var k := FirstFiring(lib, flag, ctx, d, 0);
    assert forall j :: 0 <= j < |flag.rules| ==> (Fires(lib, flag, ctx, d, j) <==> Fires(lib, flag, ctx, e, j));
    FirstIsUnique(lib, flag, ctx, e, k);
  }
}
