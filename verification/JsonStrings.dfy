/** Exactly which texts the parser accepts as a string, closed or not. */
module JsonStrings {
  import opened Utf16
  import opened JsonText
  import opened JsonPrinter
  import opened JsonReader

  // ---- Closing quotes and \u escapes, in the text alone ----

  /** How many backslashes stand in a row right before i, not counting those before p. */
  function Backslashes(t: Text, p: nat, i: nat): nat
    requires p <= i <= |t|
  {
    if i > p && t[i - 1] == BACKSLASH then 1 + Backslashes(t, p, i - 1) else 0
  }

  predicate Escaped(t: Text, p: nat, i: nat)
    requires p <= i <= |t|
  {
    Backslashes(t, p, i) % 2 == 1
  }

  /** A quote at i that closes a string whose characters begin at p. */
  predicate ClosesAt(t: Text, p: nat, i: nat) {
    p <= i < |t| && t[i] == QUOTE && !Escaped(t, p, i)
  }

  ghost predicate Closed(t: Text, p: nat) {
    exists i: nat :: ClosesAt(t, p, i)
  }

  predicate OpenUpTo(t: Text, p: nat, i: nat) {
    forall j: nat :: j < i ==> !ClosesAt(t, p, j)
  }

  /** A \u escape begins at i. */
  predicate UnicodeAt(t: Text, p: nat, i: nat) {
    p <= i && i + 1 < |t| && t[i] == BACKSLASH && t[i + 1] == LOWER_U && !Escaped(t, p, i)
  }

  /** Four characters that Integer.parseInt accepts follow it. */
  predicate GoodUnicode(r: Reader, i: nat) {
    i + 6 <= |r.src| && r.ParseHex(r.src[i + 2..i + 6]).Some?
  }

  /** Every \u escape before the closing quote, or before the end of the text, is good. */
  ghost predicate EscapesGood(r: Reader, p: nat) {
    forall i: nat :: UnicodeAt(r.src, p, i) && OpenUpTo(r.src, p, i) ==> GoodUnicode(r, i)
  }

  // ---- Steps of the scanner ----

  lemma {:induction false} PastPlain(t: Text, p: nat, i: nat)
    requires p + 1 <= i <= |t| && t[p] != BACKSLASH
    ensures Escaped(t, p, i) == Escaped(t, p + 1, i)
    decreases i
  {
    SameRun(t, p, p + 1, i);
  }

  lemma PastEscape(t: Text, p: nat, i: nat)
    requires p + 2 <= i <= |t| && t[p] == BACKSLASH
    ensures Escaped(t, p, i) == Escaped(t, p + 2, i)
  {
    assert Backslashes(t, p, p) == 0 && Backslashes(t, p, p + 1) == 1;
    SameRun(t, p, p + 2, i);
  }

  lemma PastUnicode(t: Text, p: nat, i: nat)
    requires p + 6 <= i <= |t| && t[p + 5] != BACKSLASH
    ensures Escaped(t, p, i) == Escaped(t, p + 6, i)
  {
    SameRun(t, p, p + 6, i);
  }

  /** Counting from q instead of p keeps the parity if an even number of backslashes stands before q. */
  lemma {:induction false} SameRun(t: Text, p: nat, q: nat, i: nat)
    requires p <= q <= i <= |t| && Backslashes(t, p, q) % 2 == 0
    ensures Backslashes(t, p, i) % 2 == Backslashes(t, q, i) % 2
    decreases i
  {
    if i > q {
      SameRun(t, p, q, i - 1);
    }
  }

  /** The scanner moves from p to q over nothing that closes the string and no bad escape. */
  ghost predicate Moves(r: Reader, p: nat, q: nat) {
    && p < q <= |r.src|
    && (forall i: nat :: q <= i <= |r.src| ==> Escaped(r.src, p, i) == Escaped(r.src, q, i))
    && (forall i: nat :: p <= i < q ==> !ClosesAt(r.src, p, i) && (UnicodeAt(r.src, p, i) ==> GoodUnicode(r, i)))
  }

  /** Such a move changes neither where the string closes nor whether its escapes are good. */
  lemma MoveKeeps(r: Reader, p: nat, q: nat)
    requires Moves(r, p, q)
    ensures forall i: nat :: q <= i ==> (ClosesAt(r.src, p, i) <==> ClosesAt(r.src, q, i))
    ensures Closed(r.src, p) <==> Closed(r.src, q)
    ensures EscapesGood(r, p) <==> EscapesGood(r, q)
  {
    var t := r.src;
    forall i: nat
      ensures q <= i ==> (ClosesAt(t, p, i) <==> ClosesAt(t, q, i)) && (UnicodeAt(t, p, i) <==> UnicodeAt(t, q, i))
      ensures i < q ==> !ClosesAt(t, p, i) && !ClosesAt(t, q, i) && !UnicodeAt(t, q, i)
    {
    }
    forall i: nat | q <= i
      ensures OpenUpTo(t, p, i) <==> OpenUpTo(t, q, i)
    {
      hide Escaped, UnicodeAt;
    }
    hide Escaped, ClosesAt, UnicodeAt, OpenUpTo, GoodUnicode;
  }

  lemma {:induction false} HexDigitsOnly(r: Reader, t: Text)
    requires r.HexValue(t).Some?
    ensures forall i :: 0 <= i < |t| ==> t[i] != BACKSLASH && t[i] != QUOTE
    decreases |t|
  {
    if t != [] {
      HexDigitsOnly(r, t[..|t| - 1]);
    }
  }

  /** What Integer.parseInt accepts has neither quotes nor backslashes. */
  lemma AcceptedDigits(r: Reader, t: Text)
    requires r.ParseHex(t).Some?
    ensures forall i :: 0 <= i < |t| ==> t[i] != BACKSLASH && t[i] != QUOTE
  {
    if t != [] && (t[0] == PLUS || t[0] == MINUS) {
      HexDigitsOnly(r, t[1..]);
      assert forall i :: 0 < i < |t| ==> t[i] == t[1..][i - 1];
    } else {
      HexDigitsOnly(r, t);
    }
  }

  lemma MovesPlain(r: Reader, p: nat)
    requires p < |r.src| && r.src[p] != BACKSLASH && r.src[p] != QUOTE
    ensures Moves(r, p, p + 1)
  {
    forall i: nat | p + 1 <= i <= |r.src|
      ensures Escaped(r.src, p, i) == Escaped(r.src, p + 1, i)
    {
      PastPlain(r.src, p, i);
    }
  }

  lemma MovesEscape(r: Reader, p: nat)
    requires p + 1 < |r.src| && r.src[p] == BACKSLASH && r.src[p + 1] != LOWER_U
    ensures Moves(r, p, p + 2)
  {
    forall i: nat | p + 2 <= i <= |r.src|
      ensures Escaped(r.src, p, i) == Escaped(r.src, p + 2, i)
    {
      PastEscape(r.src, p, i);
    }
    assert Escaped(r.src, p, p + 1);
  }

  lemma MovesUnicode(r: Reader, p: nat)
    requires p + 1 < |r.src| && r.src[p] == BACKSLASH && r.src[p + 1] == LOWER_U && GoodUnicode(r, p)
    ensures Moves(r, p, p + 6)
  {
    var digits := r.src[p + 2..p + 6];
    AcceptedDigits(r, digits);
    forall i: nat | p + 2 <= i < p + 6
      ensures r.src[i] != BACKSLASH && r.src[i] != QUOTE
    {
      assert r.src[i] == digits[i - p - 2];
    }
    forall i: nat | p + 6 <= i <= |r.src|
      ensures Escaped(r.src, p, i) == Escaped(r.src, p + 6, i)
    {
      PastUnicode(r.src, p, i);
    }
    hide Escaped, GoodUnicode;
    forall i: nat | p <= i < p + 6
      ensures !ClosesAt(r.src, p, i) && (UnicodeAt(r.src, p, i) ==> i == p)
    {
    }
  }

  // ---- The exact conditions ----

  /** Where reading a string from p ends: behind its closing quote, or else at the end of the text. */
  ghost predicate EndsRightly(t: Text, p: nat, end: nat) {
    if Closed(t, p) then end > 0 && ClosesAt(t, p, end - 1) && OpenUpTo(t, p, end - 1) else end == |t|
  }

  lemma EndsBeforeMove(r: Reader, p: nat, q: nat, end: nat)
    requires Moves(r, p, q) && EndsRightly(r.src, q, end)
    ensures EndsRightly(r.src, p, end)
  {
    MoveKeeps(r, p, q);
    hide Escaped, Moves, Closed;
    if Closed(r.src, p) {
      assert ClosesAt(r.src, q, end - 1);
      forall j: nat | j < end - 1
        ensures !ClosesAt(r.src, p, j)
      {
        if j < q {
          MoveHasNone(r, p, q, j);
        } else {
          assert !ClosesAt(r.src, q, j);
        }
      }
    }
  }

  lemma MoveHasNone(r: Reader, p: nat, q: nat, j: nat)
    requires Moves(r, p, q) && j < q
    ensures !ClosesAt(r.src, p, j)
  {
  }

  /**
   * At every position of every text: the characters of a string are accepted if and
   * only if each \u escape before the closing quote has four characters that
   * Integer.parseInt takes. Reading then ends behind the first quote that is not
   * escaped, and if there is none it ends at the end of the text.
   */
  lemma {:induction false} AcceptedExactlyWhen(r: Reader, p: nat, text: Text)
    requires p <= |r.src|
    ensures r.ScanStr(p, text).Ok? <==> EscapesGood(r, p)
    ensures r.ScanStr(p, text).Ok? ==> EndsRightly(r.src, p, r.ScanStr(p, text).pos)
    decreases |r.src| - p
  {
    hide EscapesGood, EndsRightly, Escaped, Moves, r.ParseHex;
    if p == |r.src| {
      NothingLeft(r, p);
    } else if r.src[p] == QUOTE {
      ClosesHere(r, p);
    } else if r.src[p] != BACKSLASH {
      MovesPlain(r, p);
      Onward(r, p, p + 1, text + [r.src[p]]);
    } else if p + 1 == |r.src| {
      LoneBackslash(r, p);
    } else if r.src[p + 1] != LOWER_U {
      MovesEscape(r, p);
      Onward(r, p, p + 2, text + [Unescape(r.src[p + 1])]);
    } else if GoodUnicode(r, p) {
      MovesUnicode(r, p);
      Onward(r, p, p + 6, text + [r.ParseHex(r.src[p + 2..p + 6]).value % 0x1_0000]);
    } else {
      BadEscape(r, p);
    }
  }

  lemma {:induction false} Onward(r: Reader, p: nat, q: nat, text: Text)
    requires Moves(r, p, q) && p < q <= |r.src|
    ensures r.ScanStr(q, text).Ok? <==> EscapesGood(r, p)
    ensures r.ScanStr(q, text).Ok? ==> EndsRightly(r.src, p, r.ScanStr(q, text).pos)
    decreases |r.src| - p, 0
  {
    hide EscapesGood, EndsRightly, Moves, r.ScanStr;
    MoveKeeps(r, p, q);
    AcceptedExactlyWhen(r, q, text);
    if r.ScanStr(q, text).Ok? {
      EndsBeforeMove(r, p, q, r.ScanStr(q, text).pos);
    }
  }

  lemma NothingLeft(r: Reader, p: nat)
    requires p == |r.src|
    ensures EscapesGood(r, p) && EndsRightly(r.src, p, p)
  {
  }

  lemma ClosesHere(r: Reader, p: nat)
    requires p < |r.src| && r.src[p] == QUOTE
    ensures EscapesGood(r, p) && EndsRightly(r.src, p, p + 1)
  {
    assert ClosesAt(r.src, p, p);
  }

  lemma LoneBackslash(r: Reader, p: nat)
    requires p + 1 == |r.src| && r.src[p] == BACKSLASH
    ensures EscapesGood(r, p) && EndsRightly(r.src, p, p + 1)
  {
  }

  lemma BadEscape(r: Reader, p: nat)
    requires p + 1 < |r.src| && r.src[p] == BACKSLASH && r.src[p + 1] == LOWER_U && !GoodUnicode(r, p)
    ensures !EscapesGood(r, p)
  {
    assert UnicodeAt(r.src, p, p) && OpenUpTo(r.src, p, p);
  }

  /** So a string that nothing closes is accepted exactly when all its \u escapes are good. */
  lemma UnclosedExactlyWhen(r: Reader, p: nat)
    requires p <= |r.src| && r.ScanStr(p, []).Ok?
    ensures Closed(r.src, p) <==>
            exists i: nat :: ClosesAt(r.src, p, i) && OpenUpTo(r.src, p, i) && r.ScanStr(p, []).pos == i + 1
    ensures !Closed(r.src, p) ==> r.ScanStr(p, []).pos == |r.src|
  {
    AcceptedExactlyWhen(r, p, []);
    hide r.ScanStr, ClosesAt, OpenUpTo;
    if Closed(r.src, p) {
      var i: nat := r.ScanStr(p, []).pos - 1;
      assert ClosesAt(r.src, p, i) && OpenUpTo(r.src, p, i);
    }
  }

  /** For instance any text without quotes and backslashes is, to the end of the input. */
  lemma {:induction false} ScanUnterminated(r: Reader, p: nat, text: Text)
    requires p <= |r.src|
    requires forall i :: p <= i < |r.src| ==> r.src[i] != QUOTE && r.src[i] != BACKSLASH
    ensures r.ScanStr(p, text) == Ok(text + r.src[p..], |r.src|)
    decreases |r.src| - p
  {
    if p == |r.src| {
      assert text + r.src[p..] == text;
    } else {
      ScanUnterminated(r, p + 1, text + [r.src[p]]);
      assert text + [r.src[p]] + r.src[p + 1..] == text + r.src[p..];
    }
  }

  lemma UnterminatedStringAccepted(s: Text, table: CharTable)
    requires forall i :: 0 <= i < |s| ==> s[i] != QUOTE && s[i] != BACKSLASH
    ensures Reader([QUOTE] + s, table).ParseValue(0) == Ok(Str(s), |s| + 1)
  {
    var r := Reader([QUOTE] + s, table);
    ScanUnterminated(r, 1, []);
    assert [] + r.src[1..] == s;
  }
}
