/** The functions of Go's package strings that the services use. */
module Strings {
  predicate HasPrefix(s: string, prefix: string) {
    prefix <= s
  }

  function TrimPrefix(s: string, prefix: string): string {
    if HasPrefix(s, prefix) then s[|prefix|..] else s
  }

  predicate HasSuffix(s: string, suffix: string) {
    |suffix| <= |s| && s[|s| - |suffix|..] == suffix
  }

  predicate Contains(s: string, part: string)
    decreases |s|
  {
    HasPrefix(s, part) || (s != "" && Contains(s[1..], part))
  }

  /** unicode.IsSpace */
  predicate IsSpace(c: char) {
    || '\t' <= c <= '\r' || c == ' ' || c == '\U{0085}' || c == '\U{00A0}' || c == '\U{1680}'
    || '\U{2000}' <= c <= '\U{200A}' || c == '\U{2028}' || c == '\U{2029}' || c == '\U{202F}'
    || c == '\U{205F}' || c == '\U{3000}'
  }

  function TrimLeft(s: string): string {
    if s != "" && IsSpace(s[0]) then TrimLeft(s[1..]) else s
  }

  function TrimRight(s: string): string {
    if s != "" && IsSpace(s[|s| - 1]) then TrimRight(s[..|s| - 1]) else s
  }

  function TrimSpace(s: string): string {
    TrimRight(TrimLeft(s))
  }

  predicate Lacks(s: string, sep: char) {
    forall i :: 0 <= i < |s| ==> s[i] != sep
  }

  datatype CutResult = CutResult(before: string, after: string, found: bool)

  /** strings.Cut with a separator of one character. */
  function CutAt(s: string, sep: char): CutResult {
    if s == "" then CutResult("", "", false)
    else if s[0] == sep then CutResult("", s[1..], true)
    else
      var rest := CutAt(s[1..], sep);
      CutResult([s[0]] + rest.before, rest.after, rest.found)
  }

  lemma {:induction false} CutAtJoin(a: string, sep: char, b: string)
    requires Lacks(a, sep)
    ensures CutAt(a + ([sep] + b), sep) == CutResult(a, b, true)
    decreases |a|
  {
    var s := a + ([sep] + b);
    if a == "" {
      assert s == [sep] + b && s[1..] == b;
    } else {
      assert s[1..] == a[1..] + ([sep] + b);
      CutAtJoin(a[1..], sep, b);
    }
  }

  lemma {:induction false} CutAtNothing(a: string, sep: char)
    requires Lacks(a, sep)
    ensures CutAt(a, sep) == CutResult(a, "", false)
    decreases |a|
  {
    if a != "" {
      CutAtNothing(a[1..], sep);
    }
  }
}
