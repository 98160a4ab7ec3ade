/** Byte-wise order of strings and the sorted listing of a set, as sort.Strings gives it. */
module Sorting {
  predicate Less(a: string, b: string) {
    if b == "" then false
    else if a == "" then true
    else a[0] < b[0] || (a[0] == b[0] && Less(a[1..], b[1..]))
  }

  lemma {:induction false} Trichotomy(a: string, b: string)
    ensures Less(a, b) || a == b || Less(b, a)
    ensures !(Less(a, b) && Less(b, a))
    ensures !Less(a, a)
    decreases |a|
  {
    if a != "" {
      Trichotomy(a[1..], a[1..]);
      if b != "" {
        Trichotomy(a[1..], b[1..]);
        assert a == [a[0]] + a[1..] && b == [b[0]] + b[1..];
      }
    }
  }

  /** The texts agree in their first i characters, and there the first one ends or goes on with a smaller one. */
  predicate DiffersFirstAt(a: string, b: string, i: nat) {
    i <= |a| && i < |b| && a[..i] == b[..i] && (i == |a| || a[i] < b[i])
  }

  /** The order of the dictionary. */
  lemma {:induction false} LessExactlyWhen(a: string, b: string)
    ensures Less(a, b) <==> exists i: nat :: DiffersFirstAt(a, b, i)
    decreases |a|
  {
    if a == "" || b == "" || a[0] < b[0] {
      assert b != "" ==> DiffersFirstAt(a, b, 0);
    } else {
      LessExactlyWhen(a[1..], b[1..]);
      forall i: nat | a[0] == b[0]
        ensures DiffersFirstAt(a, b, i + 1) <==> DiffersFirstAt(a[1..], b[1..], i)
      {
        SameBehind(a, b, i);
      }
      forall i: nat | DiffersFirstAt(a, b, i)
        ensures i > 0 && a[0] == b[0]
      {
        assert i > 0 ==> a[..i][0] == b[..i][0];
      }
      if i: nat :| DiffersFirstAt(a, b, i) {
        assert DiffersFirstAt(a[1..], b[1..], i - 1);
      }
    }
  }

  lemma SameBehind(a: string, b: string, i: nat)
    requires a != "" && b != "" && a[0] == b[0]
    ensures DiffersFirstAt(a, b, i + 1) <==> DiffersFirstAt(a[1..], b[1..], i)
  {
    if i < |a| && i < |b| {
      assert a[..i + 1] == [a[0]] + a[1..][..i] && b[..i + 1] == [b[0]] + b[1..][..i];
      assert a[..i + 1][1..] == a[1..][..i] && b[..i + 1][1..] == b[1..][..i];
    }
  }

  lemma {:induction false} Transitive(a: string, b: string, c: string)
    requires Less(a, b) && Less(b, c)
    ensures Less(a, c)
    decreases |a|
  {
    if a != "" && a[0] == b[0] == c[0] {
      Transitive(a[1..], b[1..], c[1..]);
    }
  }

  ghost predicate IsLeast(m: string, s: set<string>) {
    m in s && forall x :: x in s && x != m ==> Less(m, x)
  }

  lemma {:induction false} LeastExists(s: set<string>) returns (m: string)
    requires s != {}
    ensures IsLeast(m, s)
    decreases |s|
  {
    m :| m in s;
    var rest := s - {m};
    if rest != {} {
      var n := LeastExists(rest);
      Trichotomy(m, n);
      if Less(n, m) {
        m := n;
      } else {
        forall x | x in s && x != m
          ensures Less(m, x)
        {
          if x != n {
            Transitive(m, n, x);
          }
        }
      }
    }
  }

  lemma SomeLeast(s: set<string>)
    requires s != {}
    ensures exists m :: IsLeast(m, s)
  {
    var m := LeastExists(s);
  }

  /** The elements of s in ascending order. */
  ghost function Sorted(s: set<string>): (r: seq<string>)
    ensures |r| == |s|
    ensures forall x :: x in r <==> x in s
    decreases |s|
  {
    if s == {} then []
    else
      var m := Least(s);
      [m] + Sorted(s - {m})
  }

  ghost function Least(s: set<string>): (m: string)
    requires s != {}
    ensures IsLeast(m, s)
  {
    SomeLeast(s);
    var m :| IsLeast(m, s);
    m
  }

  predicate Ascending(r: seq<string>) {
    forall i, j :: 0 <= i < j < |r| ==> Less(r[i], r[j])
  }

  lemma {:induction false} SortedAscending(s: set<string>)
    ensures Ascending(Sorted(s))
    decreases |s|
  {
    if s != {} {
      var m := Least(s);
      var rest := Sorted(s - {m});
      SortedAscending(s - {m});
      assert Sorted(s) == [m] + rest;
      forall i | 0 <= i < |rest|
        ensures Less(m, rest[i])
      {
        assert rest[i] in rest;
      }
    }
  }

  lemma LeastComesFirst(r: seq<string>, s: set<string>, k: nat)
    requires Ascending(r) && k < |r| && r[0] in s && IsLeast(r[k], s)
    ensures k == 0
  {
    Trichotomy(r[0], r[k]);
  }

  lemma TailLists(r: seq<string>, s: set<string>)
    requires Ascending(r) && r != []
    requires forall x :: x in r <==> x in s
    ensures forall x :: x in r[1..] <==> x in s - {r[0]}
  {
    var tail := r[1..];
    assert r == [r[0]] + tail;
    forall x | x in tail
      ensures x != r[0]
    {
      var j :| 0 <= j < |tail| && tail[j] == x;
      Trichotomy(x, x);
      assert Less(r[0], r[j + 1]);
    }
  }

  /** An ascending listing is determined by what it lists. */
  lemma {:induction false} AscendingIsSorted(r: seq<string>, s: set<string>)
    requires Ascending(r)
    requires forall x :: x in r <==> x in s
    ensures r == Sorted(s)
    decreases |r|
  {
    if r == [] {
      assert s == {};
    } else {
      assert r[0] in s;
      var m := Least(s);
      var k :| 0 <= k < |r| && r[k] == m;
      LeastComesFirst(r, s, k);
      var tail := r[1..];
      TailLists(r, s);
      AscendingIsSorted(tail, s - {m});
    }
  }

  /** sort.Strings on what SMEMBERS returned: by insertion, in whatever order the members came. */
  method SortStrings(members: set<string>) returns (keys: seq<string>)
    ensures keys == Sorted(members)
  {
    keys := [];
    var left := members;
    while left != {}
      invariant left <= members
      invariant forall x :: x in keys <==> x in members - left
      invariant Ascending(keys)
      decreases left
    {
      var x :| x in left;
      var i := 0;
      while i < |keys| && Less(keys[i], x)
        invariant 0 <= i <= |keys|
        invariant forall j :: 0 <= j < i ==> Less(keys[j], x)
      {
        i := i + 1;
      }
      Inserted(keys, i, x);
      var before := keys;
      keys := keys[..i] + [x] + keys[i..];
      left := left - {x};
      assert forall y :: y in keys <==> y in before || y == x;
    }
    AscendingIsSorted(keys, members);
  }

  lemma Inserted(keys: seq<string>, i: nat, x: string)
    requires i <= |keys| && Ascending(keys) && x !in keys
    requires forall j :: 0 <= j < i ==> Less(keys[j], x)
    requires i < |keys| ==> !Less(keys[i], x)
    ensures Ascending(keys[..i] + [x] + keys[i..])
  {
    forall j | i <= j < |keys|
      ensures Less(x, keys[j])
    {
      Trichotomy(keys[i], x);
      assert keys[i] != x;
      if j > i {
        Transitive(x, keys[i], keys[j]);
      }
    }
  }
}
