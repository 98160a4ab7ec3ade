/** Which subjects and flags of one tenant have one and the same key for their assignments. */
module SubjectKeys {
  import opened Keys
  import opened KeyConflicts

  /** The key under which the answer for a subject and a flag is stored. */
  function AssignmentKey(t: string, s: string, f: string): string {
    Render(AssignmentPath(t, s, f))
  }

  lemma AssignmentKeyIs(t: string, s: string, f: string)
    ensures AssignmentKey(t, s, f) == t + (":" + ("assignments" + (":" + (s + (":" + f)))))
  {
    var parts := Parts(AssignmentPath(t, s, f));
    assert parts[1..] == ["assignments", s, f];
    RenderThree("assignments", s, f);
  }

  /** Two assignments of a tenant share their key if and only if subject, colon and flag join to one text. */
  lemma AssignmentsShareKeyExactlyWhen(t: string, s: string, f: string, s': string, f': string)
    ensures AssignmentKey(t, s, f) == AssignmentKey(t, s', f') <==> s + (":" + f) == s' + (":" + f')
  {
    AssignmentKeyIs(t, s, f);
    AssignmentKeyIs(t, s', f');
    hide AssignmentKey;
    var a, b := s + (":" + f), s' + (":" + f');
    if AssignmentKey(t, s, f) == AssignmentKey(t, s', f') {
      SameTails(t, "assignments" + (":" + a), "assignments" + (":" + b));
      SameTails("assignments", a, b);
    }
  }

  lemma HasColon(a: string, b: string)
    ensures !NoColon(a + (":" + b))
  {
    assert (a + (":" + b))[|a|] == ':';
  }

  /** Flag keys without a colon keep the assignments of a tenant apart, whatever the subjects are called. */
  lemma PlainFlagsKeepApart(t: string, s: string, f: string, s': string, f': string)
    requires NoColon(f) && NoColon(f') && AssignmentKey(t, s, f) == AssignmentKey(t, s', f')
    ensures s == s' && f == f'
  {
    AssignmentsShareKeyExactlyWhen(t, s, f, s', f');
    if s == s' {
      SameTails(s, f, f');
    } else if |s| <= |s'| {
      PrefixContinues(s, f, s', f');
      HasColon(s'[|s| + 1..], f');
    } else {
      PrefixContinues(s', f', s, f);
      HasColon(s[|s'| + 1..], f);
    }
  }

  /** Two subjects of a tenant can share a key if and only if one is the other followed by a colon and more. */
  lemma SubjectsShareKeyExactlyWhen(t: string, s: string, s': string)
    requires s != s'
    ensures (exists f: string, f': string :: AssignmentKey(t, s, f) == AssignmentKey(t, s', f')) <==>
            Under(s, s') || Under(s', s)
  {
    hide AssignmentKey;
    if f: string, f': string :| AssignmentKey(t, s, f) == AssignmentKey(t, s', f') {
      AssignmentsShareKeyExactlyWhen(t, s, f, s', f');
      if |s| <= |s'| {
        PrefixContinues(s, f, s', f');
      } else {
        PrefixContinues(s', f', s, f);
      }
    }
    if Under(s', s) {
      UnderShares(t, s, s');
    }
    if Under(s, s') {
      UnderShares(t, s', s);
    }
  }

  lemma UnderShares(t: string, s: string, s': string)
    requires Under(s', s)
    ensures AssignmentKey(t, s, s'[|s| + 1..] + (":" + "k")) == AssignmentKey(t, s', "k")
  {
    var rest := s'[|s| + 1..];
    assert s' == s + (":" + rest);
    Regroup2(s, rest, "k");
    AssignmentsShareKeyExactlyWhen(t, s, rest + (":" + "k"), s', "k");
  }
}
