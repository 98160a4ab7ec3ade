/** Exact and fuzzy product search of the backend sample. */
module Search {
  import opened Utf16

  /** The characters that \s matches in a JavaScript regular expression. */
  predicate IsSpace(c: Code) {
    || 0x09 <= c <= 0x0D || c == 0x20 || c == 0xA0 || c == 0x1680 || 0x2000 <= c <= 0x200A
    || c == 0x2028 || c == 0x2029 || c == 0x202F || c == 0x205F || c == 0x3000 || c == 0xFEFF
  }

  predicate StartsWith(s: Text, q: Text) {
    q <= s
  }

  predicate Includes(s: Text, q: Text)
    decreases |s|
  {
    StartsWith(s, q) || (s != [] && Includes(s[1..], q))
  }

  /** The text is the query with something before it and something after it. */
  lemma {:induction false} IncludesExactlyWhen(s: Text, q: Text)
    ensures Includes(s, q) <==> exists before: Text, after: Text :: s == before + q + after
    decreases |s|
  {
    if q <= s {
      assert s == [] + q + s[|q|..];
    }
    if s != [] {
      IncludesExactlyWhen(s[1..], q);
      if before: Text, after: Text :| s[1..] == before + q + after {
        assert s == ([s[0]] + before) + q + after;
      }
      if before: Text, after: Text :| s == before + q + after {
        if before == [] {
          assert s[..|q|] == q;
        } else {
          assert s[1..] == before[1..] + q + after;
        }
      }
    }
  }

  function WordEnd(s: Text): (n: nat)
    ensures n <= |s|
  {
    if s == [] || IsSpace(s[0]) then 0 else 1 + WordEnd(s[1..])
  }

  function SkipSpaces(s: Text): (n: nat)
    ensures n <= |s|
    ensures s != [] && IsSpace(s[0]) ==> n > 0
  {
    if s == [] || !IsSpace(s[0]) then 0 else 1 + SkipSpaces(s[1..])
  }

  /** name.split(/\s+/) */
  function Words(s: Text): (ws: seq<Text>)
    decreases |s|
  {
    var n := WordEnd(s);
    if n == |s| then [s]
    else
      var gap := SkipSpaces(s[n..]);
      WordEndStops(s);
      [s[..n]] + Words(s[n + gap..])
  }

  lemma {:induction false} WordEndStops(s: Text)
    ensures WordEnd(s) < |s| ==> IsSpace(s[WordEnd(s)])
    decreases |s|
  {
    if s != [] && !IsSpace(s[0]) {
      WordEndStops(s[1..]);
    }
  }

  predicate SomeWordStarts(s: Text, q: Text) {
    exists i :: 0 <= i < |Words(s)| && StartsWith(Words(s)[i], q)
  }

  /** q can be had from s by striking out elements. */
  ghost predicate IsSubsequence<T>(q: seq<T>, s: seq<T>)
    decreases |s|
  {
    if q == [] then true
    else if s == [] then false
    else IsSubsequence(q, s[1..]) || (q[0] == s[0] && IsSubsequence(q[1..], s[1..]))
  }

  /** The elements of q stand in s, in this order, at these places. */
  ghost predicate StandsAt<T>(q: seq<T>, s: seq<T>, places: seq<nat>) {
    && |places| == |q|
    && (forall i :: 0 <= i < |q| ==> places[i] < |s| && s[places[i]] == q[i])
    && forall i, j :: 0 <= i < j < |q| ==> places[i] < places[j]
  }

  function Later(places: seq<nat>): (r: seq<nat>)
    ensures |r| == |places| && forall i :: 0 <= i < |r| ==> r[i] == places[i] + 1
  {
    seq(|places|, i requires 0 <= i < |places| => places[i] + 1)
  }

  function Earlier(places: seq<nat>): (r: seq<nat>)
    requires forall i :: 0 <= i < |places| ==> places[i] > 0
    ensures |r| == |places| && forall i :: 0 <= i < |r| ==> r[i] == places[i] - 1
  {
    seq(|places|, i requires 0 <= i < |places| => places[i] - 1)
  }

  /** With an element more in front every place is one later. */
  lemma StandsLater<T>(q: seq<T>, s: seq<T>, places: seq<nat>)
    requires s != []
    ensures StandsAt(q, s[1..], places) <==> StandsAt(q, s, Later(places))
  {
    var later := Later(places);
    if StandsAt(q, s, later) {
      forall i | 0 <= i < |q|
        ensures places[i] < |s[1..]| && s[1..][places[i]] == q[i]
      {
        assert later[i] == places[i] + 1;
      }
      forall i, j | 0 <= i < j < |q|
        ensures places[i] < places[j]
      {
        assert later[i] < later[j];
      }
    }
  }

  lemma StandsFirst<T>(q: seq<T>, s: seq<T>, places: seq<nat>)
    requires q != [] && s != [] && places != [] && places[0] == 0
    ensures StandsAt(q, s, places) ==> q[0] == s[0] && StandsAt(q[1..], s, places[1..])
    ensures StandsAt(q[1..], s, places[1..]) && q[0] == s[0] && (forall i :: 0 < i < |places| ==> places[i] > 0) ==>
              StandsAt(q, s, places)
  {
    var tail := places[1..];
    assert forall i :: 0 <= i < |tail| ==> tail[i] == places[i + 1];
    if StandsAt(q[1..], s, tail) && q[0] == s[0] && forall i :: 0 < i < |places| ==> places[i] > 0 {
      forall i | 0 <= i < |q|
        ensures places[i] < |s| && s[places[i]] == q[i]
      {
        assert i > 0 ==> places[i] == tail[i - 1] && q[i] == q[1..][i - 1];
      }
      forall i, j | 0 <= i < j < |q|
        ensures places[i] < places[j]
      {
        assert places[j] == tail[j - 1];
        assert i > 0 ==> places[i] == tail[i - 1];
      }
    }
  }

  lemma {:induction false} AtPlaces<T>(q: seq<T>, s: seq<T>) returns (places: seq<nat>)
    requires IsSubsequence(q, s)
    ensures StandsAt(q, s, places)
    decreases |s|
  {
    if q == [] {
      places := [];
    } else if IsSubsequence(q, s[1..]) {
      places := AtPlaces(q, s[1..]);
      StandsLater(q, s, places);
      places := Later(places);
    } else {
      var rest := AtPlaces(q[1..], s[1..]);
      StandsLater(q[1..], s, rest);
      places := [0] + Later(rest);
      assert places[1..] == Later(rest);
      StandsFirst(q, s, places);
    }
  }

  lemma {:induction false} FromPlaces<T>(q: seq<T>, s: seq<T>, places: seq<nat>)
    requires StandsAt(q, s, places)
    ensures IsSubsequence(q, s)
    decreases |s|
  {
    if q != [] {
      var first, rest := places[0] == 0, places;
      if first {
        StandsFirst(q, s, places);
        rest := places[1..];
      }
      assert forall i :: 0 < i < |places| ==> places[0] < places[i];
      var earlier := Earlier(rest);
      assert Later(earlier) == rest;
      if first {
        StandsLater(q[1..], s, earlier);
        FromPlaces(q[1..], s[1..], earlier);
      } else {
        StandsLater(q, s, earlier);
        FromPlaces(q, s[1..], earlier);
      }
    }
  }

  lemma SubsequenceExactlyWhen<T>(q: seq<T>, s: seq<T>)
    ensures IsSubsequence(q, s) <==> exists places: seq<nat> :: StandsAt(q, s, places)
  {
    hide StandsAt;
    if IsSubsequence(q, s) {
      var places := AtPlaces(q, s);
    }
    if places: seq<nat> :| StandsAt(q, s, places) {
      FromPlaces(q, s, places);
    }
  }

  lemma {:induction false} DropFirst<T>(q: seq<T>, s: seq<T>)
    requires q != [] && IsSubsequence(q, s)
    ensures IsSubsequence(q[1..], s)
    decreases |s|
  {
    if IsSubsequence(q, s[1..]) {
      DropFirst(q, s[1..]);
      Longer(q[1..], s);
    } else {
      Longer(q[1..], s);
    }
  }

  lemma Longer<T>(q: seq<T>, s: seq<T>)
    requires s != [] && IsSubsequence(q, s[1..])
    ensures IsSubsequence(q, s)
  {
  }

  /** Matching the first character as early as possible loses nothing. */
  lemma GreedyIsSafe<T>(q: seq<T>, s: seq<T>)
    requires q != [] && s != []
    ensures IsSubsequence(q, s) <==>
            if q[0] == s[0] then IsSubsequence(q[1..], s[1..]) else IsSubsequence(q, s[1..])
  {
    if IsSubsequence(q, s[1..]) {
      DropFirst(q, s[1..]);
    }
  }

  /** The scan of searchFuzzy: how many query characters it matches. */
  method GreedyScan(name: Text, q: Text) returns (all: bool)
    ensures all <==> IsSubsequence(q, name)
  {
    var qi, i := 0, 0;
    while i < |name| && qi < |q|
      invariant 0 <= i <= |name| && 0 <= qi <= |q|
      invariant IsSubsequence(q, name) <==> IsSubsequence(q[qi..], name[i..])
      decreases |name| - i
    {
      GreedyIsSafe(q[qi..], name[i..]);
      assert q[qi..][1..] == q[qi + 1..] && name[i..][1..] == name[i + 1..];
      if name[i] == q[qi] {
        qi := qi + 1;
      }
      i := i + 1;
    }
    all := qi == |q|;
  }

  lemma {:induction false} PrefixIsSubsequence<T>(q: seq<T>, s: seq<T>)
    requires q <= s
    ensures IsSubsequence(q, s)
    decreases |s|
  {
    if q != [] {
      assert q[0] == s[0] && q[1..] <= s[1..];
      PrefixIsSubsequence(q[1..], s[1..]);
    }
  }

  lemma {:induction false} IncludedIsSubsequence(s: Text, q: Text)
    requires Includes(s, q)
    ensures IsSubsequence(q, s)
    decreases |s|
  {
    if StartsWith(s, q) {
      PrefixIsSubsequence(q, s);
    } else {
      IncludedIsSubsequence(s[1..], q);
      Longer(q, s);
    }
  }

  lemma {:induction false} Suffix<T>(q: seq<T>, s: seq<T>, n: nat)
    requires n <= |s| && IsSubsequence(q, s[n..])
    ensures IsSubsequence(q, s)
    decreases n
  {
    if n > 0 {
      assert s[1..][n - 1..] == s[n..];
      Suffix(q, s[1..], n - 1);
      Longer(q, s);
    } else {
      assert s[0..] == s;
    }
  }

  /** The words are the text up to the first space, then the words after the spaces. */
  lemma FirstAndLaterWords(s: Text) returns (start: nat)
    ensures |Words(s)| > 0 && Words(s)[0] <= s
    ensures start <= |s| && (|Words(s)| > 1 ==> start > 0 && Words(s)[1..] == Words(s[start..]))
  {
    var n := WordEnd(s);
    start := n;
    if n < |s| {
      WordEndStops(s);
      assert IsSpace(s[n..][0]);
      start := n + SkipSpaces(s[n..]);
      hide WordEnd, SkipSpaces;
      var rest := Words(s[start..]);
      assert Words(s) == [s[..n]] + rest;
      assert ([s[..n]] + rest)[1..] == rest;
    }
  }

  lemma {:induction false} WordStartIsSubsequence(s: Text, q: Text, i: nat)
    requires i < |Words(s)| && StartsWith(Words(s)[i], q)
    ensures IsSubsequence(q, s)
    decreases |s|
  {
    hide IsSubsequence, Words;
    var start := FirstAndLaterWords(s);
    if i == 0 {
      PrefixIsSubsequence(q, s);
    } else {
      assert Words(s)[i] == Words(s)[1..][i - 1];
      WordStartIsSubsequence(s[start..], q, i - 1);
      Suffix(q, s, start);
    }
  }

  // ---- Searching ----

  datatype Product = Product(id: string, name: Text, category: string, basePrice: real)

  /** String.prototype.toLowerCase */
  type Lower = Text -> Text

  ghost function Filter<T(!new)>(xs: seq<T>, keep: T -> bool): seq<T> {
    if xs == [] then [] else (if keep(xs[0]) then [xs[0]] else []) + Filter(xs[1..], keep)
  }

  /** What is kept: every element that is wanted, as often as it was there and in the same order. */
  lemma {:induction false} FilterKeeps<T(!new)>(xs: seq<T>, keep: T -> bool)
    ensures forall x :: multiset(Filter(xs, keep))[x] == if keep(x) then multiset(xs)[x] else 0
    ensures IsSubsequence(Filter(xs, keep), xs)
    decreases |xs|
  {
    if xs != [] {
      var rest, kept := xs[1..], Filter(xs[1..], keep);
      FilterKeeps(rest, keep);
      assert xs == [xs[0]] + rest;
      if keep(xs[0]) {
        assert Filter(xs, keep)[1..] == kept;
      } else {
        assert Filter(xs, keep) == kept;
      }
    }
  }

  lemma {:induction false} FilterSnoc<T(!new)>(xs: seq<T>, x: T, keep: T -> bool)
    ensures Filter(xs + [x], keep) == Filter(xs, keep) + (if keep(x) then [x] else [])
    decreases |xs|
  {
    if xs == [] {
      assert [] + [x] == [x];
    } else {
      var longer := xs + [x];
      FilterSnoc(xs[1..], x, keep);
      assert longer[1..] == xs[1..] + [x] && longer[0] == xs[0];
      var head := if keep(xs[0]) then [xs[0]] else [];
      assert Filter(xs, keep) == head + Filter(xs[1..], keep);
      assert Filter(longer, keep) == head + Filter(longer[1..], keep);
    }
  }

  method SearchExact(products: seq<Product>, query: Text, lower: Lower) returns (found: seq<Product>)
    ensures found == Filter(products, (p: Product) => Includes(lower(p.name), lower(query)))
  {
    var q := lower(query);
    ghost var keep := (p: Product) => Includes(lower(p.name), lower(query));
    found := [];
    for i := 0 to |products|
      invariant found == Filter(products[..i], keep)
    {
      assert products[..i + 1] == products[..i] + [products[i]];
      FilterSnoc(products[..i], products[i], keep);
      if Includes(lower(products[i].name), q) {
        found := found + [products[i]];
      }
    }
    assert products[..|products|] == products;
  }

  /** Fuzzy search keeps exactly the products whose name has the query as a subsequence. */
  method SearchFuzzy(products: seq<Product>, query: Text, lower: Lower) returns (found: seq<Product>)
    ensures found == Filter(products, (p: Product) => IsSubsequence(lower(query), lower(p.name)))
  {
    var q := lower(query);
    ghost var keep := (p: Product) => IsSubsequence(lower(query), lower(p.name));
    found := [];
    for i := 0 to |products|
      invariant found == Filter(products[..i], keep)
    {
      assert products[..i + 1] == products[..i] + [products[i]];
      FilterSnoc(products[..i], products[i], keep);
      var name := lower(products[i].name);
      if Includes(name, q) {
        IncludedIsSubsequence(name, q);
        found := found + [products[i]];
      } else if SomeWordStarts(name, q) {
        var k :| 0 <= k < |Words(name)| && StartsWith(Words(name)[k], q);
        WordStartIsSubsequence(name, q, k);
        found := found + [products[i]];
      } else {
        var all := GreedyScan(name, q);
        if all {
          found := found + [products[i]];
        }
      }
    }
    assert products[..|products|] == products;
  }

  lemma {:induction false} StrongerFilter<T(!new)>(xs: seq<T>, strong: T -> bool, weak: T -> bool)
    requires forall x :: strong(x) ==> weak(x)
    ensures IsSubsequence(Filter(xs, strong), Filter(xs, weak))
    decreases |xs|
  {
    if xs != [] {
      StrongerFilter(xs[1..], strong, weak);
      var s, w := Filter(xs, strong), Filter(xs, weak);
      if weak(xs[0]) {
        assert w[1..] == Filter(xs[1..], weak);
        if strong(xs[0]) {
          assert s[1..] == Filter(xs[1..], strong);
        } else {
          assert s == Filter(xs[1..], strong);
        }
      } else {
        assert s == Filter(xs[1..], strong) && w == Filter(xs[1..], weak);
      }
    }
  }

  /** Whatever the exact search finds, the fuzzy search finds too, in the same order. */
  lemma FuzzyContainsExact(products: seq<Product>, query: Text, lower: Lower)
    ensures IsSubsequence(
              Filter(products, (p: Product) => Includes(lower(p.name), lower(query))),
              Filter(products, (p: Product) => IsSubsequence(lower(query), lower(p.name))))
  {
    var exact := (p: Product) => Includes(lower(p.name), lower(query));
    var fuzzy := (p: Product) => IsSubsequence(lower(query), lower(p.name));
    forall p: Product | exact(p)
      ensures fuzzy(p)
    {
      IncludedIsSubsequence(lower(p.name), lower(query));
    }
    StrongerFilter(products, exact, fuzzy);
  }
}
