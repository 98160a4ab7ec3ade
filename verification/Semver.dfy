/** The semver constraint matcher of the evaluation engine. */
module Semver {
  import opened Strings
  import Decimal

  const MAX64 := 0x7FFF_FFFF_FFFF_FFFF

  /** What a Go int keeps of a result on a 64-bit platform. */
  function Wrap64(x: int): (w: int)
    ensures -MAX64 - 1 <= w <= MAX64
    ensures -MAX64 - 1 <= x <= MAX64 ==> w == x
  {
    (x + MAX64 + 1) % 0x1_0000_0000_0000_0000 - MAX64 - 1
  }

  datatype Version = Version(major: int, minor: int, patch: int)

  // ---- Parsing ----

  predicate IsMeta(c: char) {
    c == '-' || c == '+'
  }

  /** The text before the first - or +. */
  function StripMeta(v: string): string {
    if v == "" || IsMeta(v[0]) then "" else [v[0]] + StripMeta(v[1..])
  }

  /** strings.SplitN(s, ".", n) */
  function SplitN(s: string, n: nat): (parts: seq<string>)
    requires n >= 1
    ensures 1 <= |parts| <= n
    decreases n
  {
    var cut := CutAt(s, '.');
    if n == 1 || !cut.found then [s] else [cut.before] + SplitN(cut.after, n - 1)
  }

  /** The digits of p as a number; everything else is passed over. */
  function ParsePart(p: string): int {
    if p == "" then 0
    else
      var n, ch := ParsePart(p[..|p| - 1]), p[|p| - 1];
      if '0' <= ch <= '9' then Wrap64(n * 10 + (ch as int - '0' as int)) else n
  }

  function Component(parts: seq<string>, i: nat): int {
    if i < |parts| then ParsePart(parts[i]) else 0
  }

  function ParseVersion(v: string): Version {
    var parts := SplitN(StripMeta(v), 3);
    Version(Component(parts, 0), Component(parts, 1), Component(parts, 2))
  }

  method ParseSemverParts(v: string) returns (result: array<int>)
    ensures fresh(result) && result.Length == 3
    ensures Version(result[0], result[1], result[2]) == ParseVersion(v)
  {
    hide SplitN, StripMeta;
    var parts := SplitN(StripMeta(v), 3);
    result := new int[3](_ => 0);
    for i := 0 to |parts|
      invariant forall k :: 0 <= k < i ==> result[k] == ParsePart(parts[k])
      invariant forall k :: i <= k < 3 ==> result[k] == 0
    {
      var p := parts[i];
      var n := 0;
      for j := 0 to |p|
        invariant n == ParsePart(p[..j])
      {
        var ch := p[j];
        assert p[..j + 1][..j] == p[..j];
        if '0' <= ch <= '9' {
          n := Wrap64(n * 10 + (ch as int - '0' as int));
        }
      }
      assert p[..|p|] == p;
      result[i] := n;
    }
  }

  // ---- Comparing ----

  /** Lexicographic order on (major, minor, patch). */
  predicate Before(x: Version, y: Version) {
    || x.major < y.major
    || (x.major == y.major && x.minor < y.minor)
    || (x.major == y.major && x.minor == y.minor && x.patch < y.patch)
  }

  function Compare(x: Version, y: Version): int {
    if Before(x, y) then -1 else if Before(y, x) then 1 else 0
  }

  method CompareSemver(a: string, b: string) returns (r: int)
    ensures r == Compare(ParseVersion(a), ParseVersion(b))
  {
    hide ParseVersion;
    var aParts := ParseSemverParts(a);
    var bParts := ParseSemverParts(b);
    for i := 0 to 3
      invariant forall k :: 0 <= k < i ==> aParts[k] == bParts[k]
    {
      if aParts[i] < bParts[i] {
        return -1;
      }
      if aParts[i] > bParts[i] {
        return 1;
      }
    }
    return 0;
  }

  /** A total preorder on all strings: exactly one of <, =, > holds, and each is transitive. */
  lemma TotalPreorder(a: string, b: string, c: string)
    ensures var x, y, z := ParseVersion(a), ParseVersion(b), ParseVersion(c);
            && Compare(x, y) == -Compare(y, x)
            && (Compare(x, y) == 0 <==> x == y)
            && (Compare(x, y) <= 0 && Compare(y, z) <= 0 ==> Compare(x, z) <= 0)
            && (Compare(x, y) < 0 && Compare(y, z) <= 0 ==> Compare(x, z) < 0)
            && (Compare(x, y) <= 0 && Compare(y, z) < 0 ==> Compare(x, z) < 0)
  {
    hide ParseVersion;
  }

  // ---- Matching ----

  datatype Constraint = Constraint(op: string, target: string)

  function SplitConstraint(c: string): Constraint {
    if HasPrefix(c, ">=") then Constraint(">=", TrimSpace(TrimPrefix(c, ">=")))
    else if HasPrefix(c, "<=") then Constraint("<=", TrimSpace(TrimPrefix(c, "<=")))
    else if HasPrefix(c, ">") then Constraint(">", TrimSpace(TrimPrefix(c, ">")))
    else if HasPrefix(c, "<") then Constraint("<", TrimSpace(TrimPrefix(c, "<")))
    else if HasPrefix(c, "=") then Constraint("=", TrimSpace(TrimPrefix(c, "=")))
    else Constraint("=", c)
  }

  predicate Satisfies(order: int, op: string) {
    if op == ">=" then order >= 0
    else if op == "<=" then order <= 0
    else if op == ">" then order > 0
    else if op == "<" then order < 0
    else op == "=" && order == 0
  }

  predicate Matches(ver: string, constraint: string) {
    var c := SplitConstraint(constraint);
    Satisfies(Compare(ParseVersion(TrimPrefix(ver, "v")), ParseVersion(TrimPrefix(c.target, "v"))), c.op)
  }

  lemma FirstPrefixDecides(c: string, prefixes: seq<string>, i: nat)
    requires prefixes == [">=", "<=", ">", "<", "="] && i < |prefixes|
    requires HasPrefix(c, prefixes[i]) && forall k :: 0 <= k < i ==> !HasPrefix(c, prefixes[k])
    ensures SplitConstraint(c) == Constraint(prefixes[i], TrimSpace(TrimPrefix(c, prefixes[i])))
  {
    hide TrimSpace, TrimPrefix, HasPrefix;
    assert i == 0 || i == 1 || i == 2 || i == 3 || i == 4;
    assert i > 0 ==> !HasPrefix(c, prefixes[0]);
    assert i > 1 ==> !HasPrefix(c, prefixes[1]);
    assert i > 2 ==> !HasPrefix(c, prefixes[2]);
    assert i > 3 ==> !HasPrefix(c, prefixes[3]);
  }

  lemma NoPrefixMeansEqual(c: string, prefixes: seq<string>)
    requires prefixes == [">=", "<=", ">", "<", "="]
    requires forall k :: 0 <= k < |prefixes| ==> !HasPrefix(c, prefixes[k])
    ensures SplitConstraint(c) == Constraint("=", c)
  {
    hide TrimSpace, TrimPrefix, HasPrefix;
    assert !HasPrefix(c, prefixes[0]) && !HasPrefix(c, prefixes[1]) && !HasPrefix(c, prefixes[2])
           && !HasPrefix(c, prefixes[3]) && !HasPrefix(c, prefixes[4]);
  }

  method SemverMatch(actual: string, constraint: string) returns (ok: bool)
    ensures ok == Matches(actual, constraint)
  {
    hide ParseVersion, TrimSpace, Compare;
    var ver := TrimPrefix(actual, "v");
    var op, target := "", "";
    var prefixes := [">=", "<=", ">", "<", "="];
    for i := 0 to |prefixes|
      invariant op == "" && target == ""
      invariant forall k :: 0 <= k < i ==> !HasPrefix(constraint, prefixes[k])
    {
      if HasPrefix(constraint, prefixes[i]) {
        FirstPrefixDecides(constraint, prefixes, i);
        op := prefixes[i];
        target := TrimSpace(TrimPrefix(constraint, op));
        break;
      }
    }
    if op == "" {
      NoPrefixMeansEqual(constraint, prefixes);
      op, target := "=", constraint;
    }
    target := TrimPrefix(target, "v");
    var cmp := CompareSemver(ver, target);
    ok := Satisfies(cmp, op);
  }

  // ---- Printed versions ----

  function DigitChar(d: Decimal.Digit): char {
    '0' + d as char
  }

  function Print(n: nat): (s: string)
    ensures s != ""
  {
    PrintDigits(Decimal.Digits(n))
  }

  function PrintDigits(ds: seq<Decimal.Digit>): (s: string)
    ensures |s| == |ds|
    ensures forall i :: 0 <= i < |s| ==> s[i] == DigitChar(ds[i])
  {
    seq(|ds|, i requires 0 <= i < |ds| => DigitChar(ds[i]))
  }

  /** A version as people write it: a v or not, three numbers, and pre-release or build text. */
  datatype Written = Written(v: bool, major: nat, minor: nat, patch: nat, suffix: string)

  predicate WellFormed(w: Written) {
    && w.major <= MAX64 && w.minor <= MAX64 && w.patch <= MAX64
    && (w.suffix == "" || IsMeta(w.suffix[0]))
  }

  function Core(w: Written): string {
    Print(w.major) + ("." + (Print(w.minor) + ("." + Print(w.patch))))
  }

  function Write(w: Written): string {
    (if w.v then "v" else "") + (Core(w) + w.suffix)
  }

  function Meaning(w: Written): Version {
    Version(w.major, w.minor, w.patch)
  }

  predicate IsDigitChar(c: char) {
    '0' <= c <= '9'
  }

  predicate AllDigits(s: string) {
    forall i :: 0 <= i < |s| ==> IsDigitChar(s[i])
  }

  lemma {:induction false} ParseDigits(ds: seq<Decimal.Digit>)
    requires Decimal.Value(ds) <= MAX64
    ensures ParsePart(PrintDigits(ds)) == Decimal.Value(ds)
    decreases |ds|
  {
    if ds != [] {
      var init := ds[..|ds| - 1];
      assert PrintDigits(ds)[..|ds| - 1] == PrintDigits(init);
      ParseDigits(init);
    }
  }

  lemma ParsePrinted(n: nat)
    requires n <= MAX64
    ensures ParsePart(Print(n)) == n
    ensures AllDigits(Print(n))
  {
    Decimal.ValueOfDigits(n);
    ParseDigits(Decimal.Digits(n));
  }

  lemma {:induction false} StripMetaOf(s: string, suffix: string)
    requires forall i :: 0 <= i < |s| ==> !IsMeta(s[i])
    requires suffix == "" || IsMeta(suffix[0])
    ensures StripMeta(s + suffix) == s
    decreases |s|
  {
    if s == "" {
      assert s + suffix == suffix;
    } else {
      assert (s + suffix)[1..] == s[1..] + suffix;
      StripMetaOf(s[1..], suffix);
      assert s == [s[0]] + s[1..];
    }
  }

  lemma SplitThree(a: string, b: string, c: string)
    requires AllDigits(a) && AllDigits(b) && AllDigits(c)
    ensures SplitN(a + ("." + (b + ("." + c))), 3) == [a, b, c]
  {
    CutAtJoin(a, '.', b + ("." + c));
    CutAtJoin(b, '.', c);
    assert SplitN(b + ("." + c), 2) == [b] + SplitN(c, 1);
  }

  lemma CoreHasNoMeta(w: Written)
    requires WellFormed(w)
    ensures forall i :: 0 <= i < |Core(w)| ==> !IsMeta(Core(w)[i]) && (IsDigitChar(Core(w)[i]) || Core(w)[i] == '.')
    ensures Core(w) != "" && IsDigitChar(Core(w)[0]) && IsDigitChar(Core(w)[|Core(w)| - 1])
  {
    ParsePrinted(w.major);
    ParsePrinted(w.minor);
    ParsePrinted(w.patch);
    hide Print;
  }

  /** Parsing recovers the three numbers of a written version, whatever its suffix. */
  lemma ParseWritten(w: Written)
    requires WellFormed(w)
    ensures ParseVersion(Core(w) + w.suffix) == Meaning(w)
  {
    CoreHasNoMeta(w);
    StripMetaOf(Core(w), w.suffix);
    ParsePrinted(w.major);
    ParsePrinted(w.minor);
    ParsePrinted(w.patch);
    SplitThree(Print(w.major), Print(w.minor), Print(w.patch));
    hide Print, SplitN, StripMeta;
  }

  lemma PartStep(p: string, ch: char)
    ensures ParsePart(p + [ch]) ==
            if IsDigitChar(ch) then Wrap64(ParsePart(p) * 10 + (ch as int - '0' as int)) else ParsePart(p)
  {
    var s := p + [ch];
    assert s[..|s| - 1] == p && s[|s| - 1] == ch;
  }

  /** Characters that are no digits are passed over, wherever they stand in a piece. */
  lemma {:induction false} OthersPassedOver(a: string, x: char, b: string)
    requires !IsDigitChar(x)
    ensures ParsePart(a + [x] + b) == ParsePart(a + b)
    decreases |b|
  {
    hide ParsePart, Wrap64;
    if b == "" {
      PartStep(a, x);
      assert a + b == a && a + [x] + b == a + [x];
    } else {
      var c, ch := b[..|b| - 1], b[|b| - 1];
      OthersPassedOver(a, x, c);
      PartStep(a + [x] + c, ch);
      PartStep(a + c, ch);
      assert a + [x] + c + [ch] == a + [x] + b && a + c + [ch] == a + b;
    }
  }

  lemma {:induction false} NoMetaToStrip(s: string)
    requires forall i :: 0 <= i < |s| ==> !IsMeta(s[i])
    ensures StripMeta(s) == s
    decreases |s|
  {
    if s != "" {
      NoMetaToStrip(s[1..]);
      assert s == [s[0]] + s[1..];
    }
  }

  /** Pieces that are missing count as 0. */
  lemma ShortVersions(major: nat, minor: nat)
    requires major <= MAX64 && minor <= MAX64
    ensures ParseVersion(Print(major)) == Version(major, 0, 0)
    ensures ParseVersion(Print(major) + ("." + Print(minor))) == Version(major, minor, 0)
  {
    var a, b := Print(major), Print(minor);
    var s := a + ("." + b);
    ParsePrinted(major);
    ParsePrinted(minor);
    assert AllDigits(a) && AllDigits(b);
    NoMetaToStrip(a);
    NoMetaToStrip(s);
    CutAtNothing(a, '.');
    CutAtNothing(b, '.');
    CutAtJoin(a, '.', b);
    hide ParsePart, StripMeta, CutAt, Print;
    assert SplitN(a, 3) == [a];
    assert SplitN(b, 2) == [b];
    assert SplitN(s, 3) == [a, b];
  }

  lemma ParseTrimmed(w: Written)
    requires WellFormed(w)
    ensures ParseVersion(TrimPrefix(Write(w), "v")) == Meaning(w)
  {
    ParseWritten(w);
    CoreHasNoMeta(w);
    hide Core, ParseVersion;
    if w.v {
      assert Write(w)[1..] == Core(w) + w.suffix;
    } else {
      assert Write(w) == Core(w) + w.suffix;
    }
  }

  // ---- Written constraints ----

  predicate AllSpace(s: string) {
    forall i :: 0 <= i < |s| ==> IsSpace(s[i])
  }

  lemma {:induction false} TrimLeftPad(pad: string, s: string)
    requires AllSpace(pad) && s != "" && !IsSpace(s[0])
    ensures TrimLeft(pad + s) == s
    decreases |pad|
  {
    if pad == "" {
      assert pad + s == s;
    } else {
      assert (pad + s)[1..] == pad[1..] + s;
      TrimLeftPad(pad[1..], s);
    }
  }

  lemma {:induction false} TrimRightSuffix(core: string, suffix: string) returns (trimmed: string)
    requires core != "" && !IsSpace(core[|core| - 1])
    requires suffix == "" || IsMeta(suffix[0])
    ensures TrimRight(core + suffix) == core + trimmed
    ensures trimmed == "" || IsMeta(trimmed[0])
    decreases |suffix|
  {
    trimmed := suffix;
    var s := core + suffix;
    if suffix != "" && IsSpace(suffix[|suffix| - 1]) {
      assert s[..|s| - 1] == core + suffix[..|suffix| - 1];
      trimmed := TrimRightSuffix(core, suffix[..|suffix| - 1]);
    }
  }

  lemma WriteStarts(w: Written)
    requires WellFormed(w)
    ensures Write(w) != "" && (Write(w)[0] == 'v' || IsDigitChar(Write(w)[0]))
  {
    CoreHasNoMeta(w);
    hide Core;
  }

  lemma WriteTrimmed(w: Written) returns (t: Written)
    requires WellFormed(w)
    ensures WellFormed(t) && Meaning(t) == Meaning(w) && TrimRight(Write(w)) == Write(t)
  {
    CoreHasNoMeta(w);
    var head := if w.v then "v" else "";
    var core := Core(w);
    hide TrimRight;
    var trimmed := TrimRightSuffix(head + core, w.suffix);
    t := w.(suffix := trimmed);
    assert Core(t) == core;
    hide Core;
    assert head + (core + w.suffix) == (head + core) + w.suffix;
    assert head + (core + trimmed) == (head + core) + trimmed;
  }

  /** Spaces around the target do not matter: it still means what was written. */
  lemma TargetMeans(pad: string, w: Written)
    requires AllSpace(pad) && WellFormed(w)
    ensures ParseVersion(TrimPrefix(TrimSpace(pad + Write(w)), "v")) == Meaning(w)
  {
    hide ParseVersion, Write, TrimLeft, TrimRight;
    WriteStarts(w);
    TrimLeftPad(pad, Write(w));
    var t := WriteTrimmed(w);
    ParseTrimmed(t);
  }

  predicate IsOperator(op: string) {
    op == ">=" || op == "<=" || op == ">" || op == "<" || op == "="
  }

  /** An operator not followed by = is read as itself, not as a longer or shorter one. */
  lemma OperatorIsRead(op: string, rest: string)
    requires IsOperator(op)
    requires rest == "" || rest[0] != '='
    ensures SplitConstraint(op + rest) == Constraint(op, TrimSpace(rest))
  {
    hide TrimSpace;
    var c := op + rest;
    assert c[..|op|] == op && c[|op|..] == rest;
  }

  /** The relation that an operator names, in the order of Semantic Versioning without pre-release precedence. */
  predicate Relation(op: string, x: Version, y: Version) {
    if op == ">=" then !Before(x, y)
    else if op == "<=" then !Before(y, x)
    else if op == ">" then Before(y, x)
    else if op == "<" then Before(x, y)
    else x == y
  }

  /** semverMatch of a written version and a written constraint decides the relation of their meanings. */
  lemma MatchDecidesRelation(x: Written, op: string, pad: string, y: Written)
    requires WellFormed(x) && WellFormed(y) && IsOperator(op) && AllSpace(pad)
    ensures Matches(Write(x), op + (pad + Write(y))) <==> Relation(op, Meaning(x), Meaning(y))
  {
    hide ParseVersion, Write;
    WriteStarts(y);
    var rest := pad + Write(y);
    assert rest[0] == if pad == "" then Write(y)[0] else pad[0];
    OperatorIsRead(op, rest);
    ParseTrimmed(x);
    TargetMeans(pad, y);
    hide TrimSpace, SplitConstraint;
  }

  /** Without an operator the constraint is equality. */
  lemma BareMatchIsEquality(x: Written, y: Written)
    requires WellFormed(x) && WellFormed(y)
    ensures Matches(Write(x), Write(y)) <==> Meaning(x) == Meaning(y)
  {
    hide ParseVersion, Write, TrimSpace, TrimPrefix;
    WriteStarts(y);
    ParseTrimmed(x);
    ParseTrimmed(y);
  }
}
